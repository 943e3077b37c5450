/**
 Viewer satisfaction by genre: the mean and the number of ratings for every
 genre value, highest mean first. The genre cell is a plain string here, so the
 explode step leaves it whole: a group is one exact genre string (a combination
 such as "Action|Drama"), not a single tag.
 */
module GenreSatisfaction {
  import opened Wrappers
  import opened RatingsTable
  import opened Seqs
  import Sorting

  datatype GenreStats = GenreStats(mean: Option<real>, count: nat)

  /** The genre strings of the rows that have one, in row order. */
  function GenreKeys(rows: seq<Row>): (ks: seq<string>)
    ensures forall g :: g in ks <==> exists row :: row in rows && row.genres == Some(g)
  {
    if |rows| == 0 then []
    else
      var rest := GenreKeys(rows[1..]);
      assert forall row :: row in rows <==> row == rows[0] || row in rows[1..];
      (match rows[0].genres case Some(g) => [g] case None => []) + rest
  }

  /** The rows whose genre string is exactly `g`. */
  function RowsWithGenres(rows: seq<Row>, g: string): (r: seq<Row>)
    ensures forall row :: row in r <==> row in rows && row.genres == Some(g)
    ensures forall row :: multiset(r)[row] == if row.genres == Some(g) then multiset(rows)[row] else 0
  {
    if |rows| == 0 then []
    else
      assert rows == [rows[0]] + rows[1..];
      (if rows[0].genres == Some(g) then [rows[0]] else []) + RowsWithGenres(rows[1..], g)
  }

  /** Mean and count of the present ratings in group `g`. */
  function GroupStats(rows: seq<Row>, g: string): (st: GenreStats)
    ensures st.count <= |RowsWithGenres(rows, g)|
    ensures st.mean.Some? <==> st.count > 0
    ensures st.count > 0 <==> exists row :: row in rows && row.genres == Some(g) && row.rating.Some?
  {
    var ratings := PresentRatings(RowsWithGenres(rows, g));
    GenreStats(Mean(ratings), |ratings|)
  }

  /** One entry per distinct genre string, in order of first appearance. */
  function Grouped(rows: seq<Row>): (r: seq<(string, GenreStats)>)
    ensures KeysDistinct(r)
    ensures forall g, st :: (g, st) in r <==> (exists row :: row in rows && row.genres == Some(g)) && st == GroupStats(rows, g)
  {
    var keys := Dedup(GenreKeys(rows));
    var r := seq(|keys|, i requires 0 <= i < |keys| => (keys[i], GroupStats(rows, keys[i])));
    KeyedEntries(keys, g => GroupStats(rows, g), r);
    r
  }

  predicate HigherMean(a: (string, GenreStats), b: (string, GenreStats)) {
    MeanAtLeast(a.1.mean, b.1.mean)
  }

  function AnalyzeGenresHighestViewerSatisfactionRatings(t: Table): (r: Outcome<seq<(string, GenreStats)>>)
    ensures r.ReturnsNone? <==> Genres !in t.columns || Rating !in t.columns
    ensures !r.KeyError?
    ensures r.Ok? ==> Sorting.SortedBy(r.value, HigherMean)
    ensures r.Ok? ==> multiset(r.value) == multiset(Grouped(t.rows))
  {
    if Genres !in t.columns || Rating !in t.columns then ReturnsNone
    else Ok(Sorting.Sort(Grouped(t.rows), HigherMean))
  }

  /**
   The output holds one entry for each genre string that occurs, keyed by the
   whole string, with the mean and count of that group's ratings.
   */
  lemma SatisfactionEntries(t: Table, g: string, st: GenreStats)
    requires Genres in t.columns && Rating in t.columns
    ensures AnalyzeGenresHighestViewerSatisfactionRatings(t).Ok?
    ensures KeysDistinct(AnalyzeGenresHighestViewerSatisfactionRatings(t).value)
    ensures (g, st) in AnalyzeGenresHighestViewerSatisfactionRatings(t).value
            <==> (exists row :: row in t.rows && row.genres == Some(g)) && st == GroupStats(t.rows, g)
  {
    var r := AnalyzeGenresHighestViewerSatisfactionRatings(t).value;
    PermutationKeysDistinct(Grouped(t.rows), r);
    assert (g, st) in r <==> (g, st) in multiset(r);
  }

  /** Means run from highest to lowest; groups without any rating come last. */
  lemma SatisfactionMeansNonIncreasing(t: Table)
    requires Genres in t.columns && Rating in t.columns
    ensures var r := AnalyzeGenresHighestViewerSatisfactionRatings(t).value;
            forall i, j :: 0 <= i < j < |r| && r[j].1.mean.Some? ==>
              r[i].1.mean.Some? && r[i].1.mean.value >= r[j].1.mean.value
  {
    var r := AnalyzeGenresHighestViewerSatisfactionRatings(t).value;
    assert Sorting.SortedBy(r, HigherMean);
    forall i, j | 0 <= i < j < |r| && r[j].1.mean.Some?
      ensures r[i].1.mean.Some? && r[i].1.mean.value >= r[j].1.mean.value
    {
      assert HigherMean(r[i], r[j]);
    }
  }

  lemma {:induction false} RowsWithGenresConcat(a: seq<Row>, b: seq<Row>, g: string)
    ensures RowsWithGenres(a + b, g) == RowsWithGenres(a, g) + RowsWithGenres(b, g)
  {
    if |a| == 0 {
      assert a + b == b;
    } else {
      assert (a + b)[1..] == a[1..] + b;
      RowsWithGenresConcat(a[1..], b, g);
    }
  }

  /** Positions of the rows whose genre string is exactly `g` and which carry a rating. */
  ghost function RatedPositions(rows: seq<Row>, g: string): set<int> {
    set i | 0 <= i < |rows| && rows[i].genres == Some(g) && rows[i].rating.Some?
  }

  /**
   A group's count is the number of rows with that exact genre string that
   carry a rating: when every row is rated, the number of rows with that
   genre string.
   */
  lemma {:induction false} GroupCountIsRowCount(rows: seq<Row>, g: string)
    ensures GroupStats(rows, g).count == |RatedPositions(rows, g)|
    ensures GroupStats(rows, g).count <= |RowsWithGenres(rows, g)|
    ensures (forall row :: row in rows ==> row.rating.Some?) ==> GroupStats(rows, g).count == |RowsWithGenres(rows, g)|
  {
    RatedPositionsCount(rows, g);
  }

  lemma {:induction false} RatedPositionsCount(rows: seq<Row>, g: string)
    ensures |PresentRatings(RowsWithGenres(rows, g))| == |RatedPositions(rows, g)|
  {
    if |rows| > 0 {
      var init, last := rows[..|rows| - 1], rows[|rows| - 1];
      assert rows == init + [last];
      RatedPositionsCount(init, g);
      var matched := last.genres == Some(g) && last.rating.Some?;
      assert |PresentRatings(RowsWithGenres([last], g))| == if matched then 1 else 0 by {
        assert [last][1..] == [];
      }
      RowsWithGenresConcat(init, [last], g);
      PresentRatingsConcat(RowsWithGenres(init, g), RowsWithGenres([last], g));
      RatedPositionsSnoc(init, last, g);
    } else {
      assert RatedPositions(rows, g) == {};
    }
  }

  lemma RatedPositionsSnoc(init: seq<Row>, last: Row, g: string)
    ensures |RatedPositions(init + [last], g)|
            == |RatedPositions(init, g)| + if last.genres == Some(g) && last.rating.Some? then 1 else 0
  {
    var before := RatedPositions(init, g);
    var rows := init + [last];
    assert forall i :: 0 <= i < |init| ==> rows[i] == init[i];
    assert |init| !in before;
    if last.genres == Some(g) && last.rating.Some? {
      assert RatedPositions(rows, g) == before + {|init|};
    } else {
      assert RatedPositions(rows, g) == before;
    }
  }

  /** A single rated row forms one group, keyed by its genre string as it stands. */
  lemma SingleRowGroup(g: string, x: real)
    ensures var t := Table({Genres, Rating}, [Row(None, None, None, Some(g), Some(x), None)]);
            AnalyzeGenresHighestViewerSatisfactionRatings(t) == Ok([(g, GenreStats(Some(x), 1))])
  {
    var rows := [Row(None, None, None, Some(g), Some(x), None)];
    assert rows[1..] == [];
    assert GenreKeys(rows) == [g];
    assert Dedup([g]) == [g] by {
      assert [g][..0] == [];
    }
    assert RowsWithGenres(rows, g) == rows;
    assert PresentRatings(rows) == [x];
    assert Mean([x]) == Some(x) by {
      assert [x][1..] == [];
      assert Sum([x]) == x + Sum([]);
      assert (|[x]| as real) == 1.0;
    }
    var e := (g, GenreStats(Some(x), 1));
    assert Grouped(rows) == [e];
    assert Sorting.Sort([e], HigherMean) == [e] by {
      assert [e][1..] == [];
    }
  }

  /** A two-tag genre string forms its own group; its tags do not. */
  lemma WholeStringIsTheGroupKey()
    ensures var t := Table({Genres, Rating}, [Row(None, None, None, Some("Action|Drama"), Some(4.0), None)]);
            AnalyzeGenresHighestViewerSatisfactionRatings(t) == Ok([("Action|Drama", GenreStats(Some(4.0), 1))])
  {
    SingleRowGroup("Action|Drama", 4.0);
  }
}
