/**
 Worked examples of the pipeline on small tables.
 */
module Scenarios {
  import opened Wrappers
  import opened RatingsTable
  import opened Seqs
  import opened GenreBreakdown
  import BestRated
  import GenreSatisfaction
  import RatingByYear
  import Cleaning

  const AllColumns: set<Column> := {UserId, MovieId, Title, Genres, Rating, Year}

  // ---------------------------------------------------------------------------
  // Genre breakdown of three movies: ("A", "Sci-Fi|Action"), ("B", "Action"),
  // ("C", "Comedy") with threshold 2 gives Action: 2 and Other: 2.
  // ---------------------------------------------------------------------------

  function MovieRow(id: int, title: string, genres: string): Row {
    Row(Some(1), Some(id), Some(title), Some(genres), Some(4.0), Some(2000))
  }

  const SciFiAction: string := "Sci-Fi" + "|" + "Action"

  function ThreeMovieTable(): Table {
    Table(AllColumns, [MovieRow(1, "A", SciFiAction), MovieRow(2, "B", "Action"), MovieRow(3, "C", "Comedy")])
  }

  lemma ThreeMovieKeys()
    ensures Dedup(Movies(ThreeMovieTable().rows)) == [
              MovieKey(Some(1), Some("A"), Some(SciFiAction)),
              MovieKey(Some(2), Some("B"), Some("Action")),
              MovieKey(Some(3), Some("C"), Some("Comedy"))]
  {
    var ms := Movies(ThreeMovieTable().rows);
    assert ms[0].movieId == Some(1) && ms[1].movieId == Some(2) && ms[2].movieId == Some(3);
    DedupOfDistinct(ms);
  }

  lemma SplitSciFiAction()
    ensures SplitOn(SciFiAction, '|') == ["Sci-Fi", "Action"]
  {
    SplitPiece("Sci-Fi", '|', "Action");
    SplitPiece("Action", '|', "");
  }

  lemma ExplodeOfThree(a: MovieKey, b: MovieKey, c: MovieKey, ga: string, gb: string, gc: string)
    requires a.genres == Some(ga) && b.genres == Some(gb) && c.genres == Some(gc)
    ensures Explode([a, b, c]) == SplitOn(ga, '|') + SplitOn(gb, '|') + SplitOn(gc, '|')
  {
    ExplodeCons(c, gc, []);
    assert [c] + [] == [c];
    ExplodeCons(b, gb, [c]);
    assert [b] + [c] == [b, c];
    ExplodeCons(a, ga, [b, c]);
    assert [a] + [b, c] == [a, b, c];
  }

  lemma ExplodeThree(a: MovieKey, b: MovieKey, c: MovieKey)
    requires a.genres == Some(SciFiAction) && b.genres == Some("Action") && c.genres == Some("Comedy")
    ensures Explode([a, b, c]) == ["Sci-Fi", "Action", "Action", "Comedy"]
  {
    SplitSciFiAction();
    SplitPiece("Action", '|', "");
    SplitPiece("Comedy", '|', "");
    ExplodeOfThree(a, b, c, SciFiAction, "Action", "Comedy");
  }

  lemma ThreeMovieTags()
    ensures MovieTags(ThreeMovieTable().rows) == ["Sci-Fi", "Action", "Action", "Comedy"]
  {
    var a := MovieKey(Some(1), Some("A"), Some(SciFiAction));
    var b := MovieKey(Some(2), Some("B"), Some("Action"));
    var c := MovieKey(Some(3), Some("C"), Some("Comedy"));
    ThreeMovieKeys();
    ExplodeThree(a, b, c);
  }

  lemma ThreeMovieExpected(g: string)
    ensures ExpectedCount(["Sci-Fi", "Action", "Action", "Comedy"], 2, g) == if g == "Action" || g == "Other" then Some(2) else None
  {
    var tags := ["Sci-Fi", "Action", "Action", "Comedy"];
    var m := multiset(tags);
    assert m == multiset{"Sci-Fi", "Action", "Action", "Comedy"};
    assert m["Sci-Fi"] == 1 && m["Action"] == 2 && m["Comedy"] == 1;
    assert Occurrences(tags[3..], m, 2, true) == ["Comedy"];
    assert Occurrences(tags[2..], m, 2, true) == ["Comedy"];
    assert Occurrences(tags[1..], m, 2, true) == ["Comedy"];
    assert RareOccurrences(tags, 2) == ["Sci-Fi", "Comedy"];
  }

  /** Sci-Fi and Comedy fall below 2 and fold into Other; Action stays. */
  lemma ThreeMovies(g: string, v: nat)
    ensures (g, v) in AnalyzeGenresBreakdown(ThreeMovieTable(), 2).value <==> (g == "Action" || g == "Other") && v == 2
  {
    ThreeMovieTags();
    ThreeMovieExpected(g);
    BreakdownEntries(ThreeMovieTable(), 2, g, v);
  }

  lemma ThreeMovieExpectedAtDefault(g: string)
    ensures ExpectedCount(["Sci-Fi", "Action", "Action", "Comedy"], DefaultMinThreshold, g) == if g == "Other" then Some(4) else None
  {
    var tags := ["Sci-Fi", "Action", "Action", "Comedy"];
    var m := multiset(tags);
    assert m == multiset{"Sci-Fi", "Action", "Action", "Comedy"};
    assert m["Sci-Fi"] == 1 && m["Action"] == 2 && m["Comedy"] == 1;
    assert Occurrences(tags[3..], m, DefaultMinThreshold, true) == ["Comedy"];
    assert Occurrences(tags[2..], m, DefaultMinThreshold, true) == ["Action", "Comedy"];
    assert Occurrences(tags[1..], m, DefaultMinThreshold, true) == ["Action", "Action", "Comedy"];
    assert |RareOccurrences(tags, DefaultMinThreshold)| == 4;
  }

  /** At the default threshold of 100 every tag of the three movies is rare: one entry, Other 4. */
  lemma ThreeMoviesAtDefaultThreshold(g: string, v: nat)
    ensures (g, v) in AnalyzeGenresBreakdown(ThreeMovieTable(), DefaultMinThreshold).value <==> g == "Other" && v == 4
  {
    ThreeMovieTags();
    ThreeMovieExpectedAtDefault(g);
    BreakdownEntries(ThreeMovieTable(), DefaultMinThreshold, g, v);
  }

  lemma DistinctTitlesOfThree(a: Row, b: Row, c: Row, ta: string, tb: string, tc: string)
    requires a.title == Some(ta) && b.title == Some(tb) && c.title == Some(tc)
    requires ta != tb && tb != tc && ta != tc
    ensures |BestRated.DistinctTitles([a, b, c])| == 3
  {
    var rows := [a, b, c];
    assert rows[1..] == [b, c] && rows[1..][1..] == [c] && rows[1..][1..][1..] == [];
    assert BestRated.TitleKeys([c]) == [tc];
    assert BestRated.TitleKeys([b, c]) == [tb, tc];
    var ks := BestRated.TitleKeys(rows);
    assert ks == [ta, tb, tc];
    DedupOfDistinct(ks);
    BestRated.DistinctTitlesCount(rows);
  }

  lemma ThreeDistinctTitles()
    ensures |BestRated.DistinctTitles(ThreeMovieTable().rows)| == 3
  {
    var rows := ThreeMovieTable().rows;
    assert "A"[0] != "B"[0] && "B"[0] != "C"[0] && "A"[0] != "C"[0];
    DistinctTitlesOfThree(rows[0], rows[1], rows[2], "A", "B", "C");
  }

  /** With the default `top_n` of 10, all three titles are listed. */
  lemma ThreeTitlesAtDefaultTopN()
    ensures |BestRated.FindBestRatedMovies(ThreeMovieTable(), BestRated.DefaultTopN).value| == 3
  {
    ThreeDistinctTitles();
  }

  lemma DedupTwoThenOne(o: string, c: string)
    requires o != c
    ensures Dedup([o, o, c]) == [o, c]
  {
    assert [o, o, c][..2] == [o, o] && [o, o][..1] == [o] && [o][..0] == [];
  }

  lemma CountsTwoThenOne(o: string, c: string)
    requires o != c
    ensures ValueCounts([o, o, c]) == [(o, 2), (c, 1)]
  {
    DedupTwoThenOne(o, c);
    var m := multiset([o, o, c]);
    assert m == multiset{o, o, c};
    assert m[o] == 2 && m[c] == 1;
  }

  lemma BandsTwoThenOne(o: string, c: string)
    ensures Band([(o, 2), (c, 1)], 2, false) == [(o, 2)]
    ensures Band([(o, 2), (c, 1)], 2, true) == [(c, 1)]
  {
    var counts: seq<(string, nat)> := [(o, 2), (c, 1)];
    var tail: seq<(string, nat)> := counts[1..];
    assert tail == [(c, 1)] && tail[1..] == [];
    assert Band(tail[1..], 2, false) == [] && Band(tail[1..], 2, true) == [];
    assert Band(tail, 2, false) == Band(tail[1..], 2, false);
    assert Band(tail, 2, true) == [(c, 1)] + Band(tail[1..], 2, true);
    assert Band(counts, 2, false) == [(o, 2)] + Band(tail, 2, false);
    assert Band(counts, 2, true) == Band(tail, 2, true);
  }

  /**
   A real tag named "Other" that is frequent is overwritten by the folded sum,
   not added to: two "Other" tags and one rare tag fold to Other 1.
   */
  lemma FrequentOtherTagIsOverwritten(rare: string)
    requires rare != OtherLabel
    ensures FoldRare([OtherLabel, OtherLabel, rare], 2) == [(OtherLabel, 1)]
  {
    CountsTwoThenOne(OtherLabel, rare);
    BandsTwoThenOne(OtherLabel, rare);
    assert Keys([(OtherLabel, 2 as nat)]) == [OtherLabel];
    assert Total([(rare, 1 as nat)]) == 1;
  }

  // ---------------------------------------------------------------------------
  // The empty table
  // ---------------------------------------------------------------------------

  /** An empty table cleans to itself, and every aggregation of it is empty, not an error. */
  lemma EmptyTableGivesEmptyResults(minThreshold: int, topN: int)
    ensures Cleaning.RemoveMissingValuesAndDuplicates(Table(AllColumns, [])) == Cleaning.Cleaned(Table(AllColumns, []), 0)
    ensures AnalyzeGenresBreakdown(Table(AllColumns, []), minThreshold) == Ok([])
    ensures GenreSatisfaction.AnalyzeGenresHighestViewerSatisfactionRatings(Table(AllColumns, [])) == Ok([])
    ensures RatingByYear.AnalyzeRatingByYear(Table(AllColumns, [])) == Ok([])
    ensures BestRated.FindBestRatedMovies(Table(AllColumns, []), topN) == Ok([])
  {
    assert RatingByYear.YearKeys([]) == [];
    assert RatingByYear.AscendingYears([]) == [];
    assert RatingByYear.YearlyStats([]) == [];
  }
}
