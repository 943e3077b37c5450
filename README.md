# Movie ratings analysis, modelled in Dafny

This project models the analysis core of a small movie-ratings exploration tool
(`Week-03-EDA-and-Dashboards/exercise/data_extractor.py`). The tool loads a table of
ratings into a pandas DataFrame. Each row has a user id, movie id, title, a `|`-separated
genre string, a rating and a release year. The tool then:

- cleans the table by dropping every row with a missing value, then every repeated row;
- breaks the movies down by genre tag, folding rare tags (count below `min_threshold`)
  into a single `Other` entry, largest count first;
- groups ratings by genre string and reports the mean rating and rating count of each
  group, highest mean first;
- groups ratings by year and reports the mean rating and the number of distinct movies
  each year, in ascending year order;
- ranks titles by mean rating and keeps the first `top_n`.

## How the model is built

- **Tables.** A DataFrame is a `RatingsTable.Table`: a set of columns plus a sequence of
  rows. Every field of a row is an `Option`, and `None` stands for pandas' NaN. An
  absent column is `None` in every row (`RatingsTable.WellFormed`).
- **Outcomes.** Every analysis returns an `Outcome`:
  - `Ok(value)` is the returned Series or DataFrame, as a sequence of (key, value) pairs;
  - `ReturnsNone` is a guard's bare `return`;
  - `KeyError(missing)` is pandas raising because a column the code indexes without a
    guard is absent.
- **pandas semantics kept:**
  - `dropna` drops a row with any NaN in a present column;
  - `drop_duplicates` keeps the first occurrence (`Seqs.Dedup`);
  - `value_counts`, `groupby`, `mean`, `count` and `nunique` all skip NaN;
  - a group whose ratings are all NaN has mean NaN (`None`);
  - sorting puts NaN means last (`RatingsTable.MeanAtLeast`);
  - `head(n)` with negative `n` drops the last `|n|` entries (`BestRated.HeadLength`).
- **Defaults.** The default arguments `min_threshold=100` and `top_n=10` are the constants
  `GenreBreakdown.DefaultMinThreshold` and `BestRated.DefaultTopN`. The analyses take both
  as explicit parameters; `Scenarios.ThreeMoviesAtDefaultThreshold` and
  `Scenarios.ThreeTitlesAtDefaultTopN` apply them.
- **Removed count.** `remove_missing_values_and_duplicates` prints how many rows it removed
  and returns only the cleaned table. The model returns that printed number alongside the
  table, as `Cleaned.removed`.
- **Sorting.** Sorting is a generic insertion sort (`Sorting.Sort`). Its contract says only
  that the result is sorted and is a permutation of its input. Ties may therefore come out in
  any order, and the model promises nothing about pandas' tie order.

Four behaviours of the code are easy to misread; the model follows the code:

- **Satisfaction groups.** `analyze_genres_highest_viewer_satisfaction_ratings` calls
  `explode('genres')` on a column of plain strings. That is a no-op, so groups are keyed
  by the whole genre string (such as `Action|Drama`), never by a single tag
  (`GenreSatisfaction.WholeStringIsTheGroupKey`).
- **Rating by year.** `analyze_rating_by_year` has no column guard. A missing `year`,
  `rating` or `movie_id` column raises `KeyError`; the function never returns `None`.
  `groupby("year")` runs first, so a missing `year` is reported on its own. Only when
  `year` is present does the aggregation report whichever of `rating` and `movie_id`
  are missing.
- **The `Other` entry.** `final_breakdown['Other'] = other_count` is an assignment.
  - When a real tag named `Other` already meets the threshold, its count is overwritten,
    not added to. So the breakdown's total then falls short of the number of tag
    occurrences (`GenreBreakdown.BreakdownConservation`,
    `Scenarios.FrequentOtherTagIsOverwritten`).
  - When no such tag exists, the total equals the number of tag occurrences
    (`GenreBreakdown.BreakdownConservationWithoutOtherTag`).
- **`top_n`.** `find_best_rated_movies`'s `top_n` is the number of titles kept, taken by
  `head(top_n)`. The code applies no minimum number of ratings per title. The dashboard's
  headings "≥{min_movie_ratings} ratings" (`dashboard.py`, line 125) and "≥150 ratings"
  (line 131) label calls that pass `top_n=5` and `top_n=150`.

## Model

All source cells refer to `Week-03-EDA-and-Dashboards/exercise/data_extractor.py`.

| member | source | states |
|---|---|---|
| Cleaning.DropMissing | Week-03-EDA-and-Dashboards/exercise/data_extractor.py:34 | a row survives `dropna` iff it occurs in the table and has a value in every present column; no row is added |
| Cleaning.RemoveMissingValuesAndDuplicates | Week-03-EDA-and-Dashboards/exercise/data_extractor.py:32-37 | the cleaned table keeps the columns; it holds exactly the complete rows of the input, each once; the reported count is the number of rows removed |
| Cleaning.DropMissingKeepsOrder | Week-03-EDA-and-Dashboards/exercise/data_extractor.py:34 | `dropna` keeps the relative order of the rows it keeps |
| Cleaning.CleanedRowsInFirstOccurrenceOrder | Week-03-EDA-and-Dashboards/exercise/data_extractor.py:34 | the cleaned rows appear in the order of their first occurrence in the input |
| Cleaning.DropMissingOfComplete | Week-03-EDA-and-Dashboards/exercise/data_extractor.py:34 | `dropna` on rows that are all complete changes nothing |
| Cleaning.RemovedCountBounds | Week-03-EDA-and-Dashboards/exercise/data_extractor.py:33-36 | the removed count lies between 0 and the input row count, and the cleaned table is no longer than the input |
| Cleaning.CleaningIsIdempotent | Week-03-EDA-and-Dashboards/exercise/data_extractor.py:32-37 | cleaning a cleaned table returns the same table and reports 0 rows removed |
| Seqs.Dedup | Week-03-EDA-and-Dashboards/exercise/data_extractor.py:34 | `drop_duplicates` leaves no repeated element, keeps every distinct element, and never grows the sequence |
| Seqs.DedupInFirstOccurrenceOrder | Week-03-EDA-and-Dashboards/exercise/data_extractor.py:34 | `drop_duplicates` lists the distinct elements in order of first occurrence |
| Seqs.DistinctCount | Week-03-EDA-and-Dashboards/exercise/data_extractor.py:82 | the length after `drop_duplicates` is the number of distinct elements (`nunique`) |
| Seqs.FirstIndex | Week-03-EDA-and-Dashboards/exercise/data_extractor.py:34 | the index of the first occurrence of an element |
| GenreBreakdown.SplitOn | Week-03-EDA-and-Dashboards/exercise/data_extractor.py:46 | `str.split('\|')` yields at least one piece, and no piece contains the separator |
| GenreBreakdown.JoinSplit | Week-03-EDA-and-Dashboards/exercise/data_extractor.py:46 | joining the split pieces with the separator gives back the genre string |
| GenreBreakdown.SplitJoin | Week-03-EDA-and-Dashboards/exercise/data_extractor.py:46 | splitting pieces that have no separator, once joined, gives back the pieces |
| GenreBreakdown.SplitPiece | Week-03-EDA-and-Dashboards/exercise/data_extractor.py:46 | a leading piece with no separator splits off as a piece of its own |
| GenreBreakdown.ExplodeLength | Week-03-EDA-and-Dashboards/exercise/data_extractor.py:46 | `explode` yields one tag per split piece of each movie with genres, and none for a missing genre |
| GenreBreakdown.Movies | Week-03-EDA-and-Dashboards/exercise/data_extractor.py:44 | selecting `movie_id`, `title` and `genres` gives one key per row, made of exactly that row's three cells |
| GenreBreakdown.Explode | Week-03-EDA-and-Dashboards/exercise/data_extractor.py:46 | no exploded tag contains the separator |
| GenreBreakdown.ExplodeSingle | Week-03-EDA-and-Dashboards/exercise/data_extractor.py:46 | one movie explodes to the split pieces of its genre string, or to nothing when its genres are missing |
| GenreBreakdown.ExplodeConcat | Week-03-EDA-and-Dashboards/exercise/data_extractor.py:46 | exploding a concatenation explodes each part in turn; with ExplodeSingle this determines `explode` on every input, order and multiplicity included |
| GenreBreakdown.ExplodeCons | Week-03-EDA-and-Dashboards/exercise/data_extractor.py:46 | a movie with genres `g` puts the split pieces of `g` in front of the tags of the movies after it |
| GenreBreakdown.ExplodeMembers | Week-03-EDA-and-Dashboards/exercise/data_extractor.py:46 | a tag comes out of `explode` iff it is a split piece of some movie's genre string |
| GenreBreakdown.MovieTags | Week-03-EDA-and-Dashboards/exercise/data_extractor.py:44-46 | the tags of the distinct movies contain no separator; they are as many as the distinct movies' split pieces; a tag occurs iff it is a split piece of some row's genre string |
| GenreBreakdown.ValueCounts | Week-03-EDA-and-Dashboards/exercise/data_extractor.py:47 | `value_counts` holds one entry per distinct tag, each with the number of times that tag occurs |
| GenreBreakdown.FoldRare | Week-03-EDA-and-Dashboards/exercise/data_extractor.py:49-55 | labels stay distinct, and every entry other than `Other` is a tag with its own count, at or above the threshold |
| GenreBreakdown.Band | Week-03-EDA-and-Dashboards/exercise/data_extractor.py:49-50 | the tags below (or at or above) the threshold are exactly the counted entries on that side; distinct keys stay distinct |
| GenreBreakdown.Assign | Week-03-EDA-and-Dashboards/exercise/data_extractor.py:55 | after `s['Other'] = v`, `('Other', v)` is present, no other `Other` entry remains, every other entry is kept, and distinct keys stay distinct |
| GenreBreakdown.FoldRareEntries | Week-03-EDA-and-Dashboards/exercise/data_extractor.py:47-55 | the folded counts hold label `g` with value `v` iff `v` is the expected count of `g`: `Other` gets the number of rare tag occurrences, and any tag at or above the threshold gets its own count |
| GenreBreakdown.AnalyzeGenresBreakdown | Week-03-EDA-and-Dashboards/exercise/data_extractor.py:39-64 | returns `None` iff `genres` is absent; raises `KeyError` naming the missing columns iff `movie_id` or `title` is absent; otherwise the folded counts, sorted by count, largest first |
| GenreBreakdown.BreakdownEntries | Week-03-EDA-and-Dashboards/exercise/data_extractor.py:44-58 | with all three columns present, `(g, v)` is in the breakdown iff `v` is the expected count of `g` over the distinct movies' tags |
| GenreBreakdown.ThresholdIsInclusive | Week-03-EDA-and-Dashboards/exercise/data_extractor.py:49-50 | a tag whose count equals `min_threshold` is listed on its own, not folded into `Other` |
| GenreBreakdown.BreakdownKeysDistinct | Week-03-EDA-and-Dashboards/exercise/data_extractor.py:47-58 | every label appears in the breakdown at most once |
| GenreBreakdown.ReplaceTotal | Week-03-EDA-and-Dashboards/exercise/data_extractor.py:55 | overwriting a value changes the total by the difference between the new and the old value |
| GenreBreakdown.ReplaceUnchanged | Week-03-EDA-and-Dashboards/exercise/data_extractor.py:55 | overwriting a key that is absent changes nothing |
| GenreBreakdown.AssignTotalPresent | Week-03-EDA-and-Dashboards/exercise/data_extractor.py:55 | assigning over a key already present changes the total by the new value minus the old one |
| GenreBreakdown.AssignTotalAbsent | Week-03-EDA-and-Dashboards/exercise/data_extractor.py:55 | assigning a key not yet present adds its value to the total |
| GenreBreakdown.FoldRareTotalWhenAssigned | Week-03-EDA-and-Dashboards/exercise/data_extractor.py:49-55 | when some tag is rare, the folded total is the tag count minus any overwritten frequent `Other` count |
| GenreBreakdown.FoldRareTotal | Week-03-EDA-and-Dashboards/exercise/data_extractor.py:49-55 | the folded total is the number of tag occurrences, less the overwritten `Other` count when a frequent `Other` tag is overwritten |
| GenreBreakdown.BreakdownConservation | Week-03-EDA-and-Dashboards/exercise/data_extractor.py:44-58 | the breakdown's total is the number of tag occurrences among distinct movies, less the overwritten `Other` count when a frequent real `Other` tag is overwritten |
| GenreBreakdown.BreakdownConservationWithoutOtherTag | Week-03-EDA-and-Dashboards/exercise/data_extractor.py:44-58 | without a frequent real `Other` tag, the breakdown's total equals the number of split genre pieces of the distinct movies |
| GenreSatisfaction.GenreKeys | Week-03-EDA-and-Dashboards/exercise/data_extractor.py:74 | the group keys are exactly the non-missing genre strings |
| GenreSatisfaction.RowsWithGenres | Week-03-EDA-and-Dashboards/exercise/data_extractor.py:74 | a group holds exactly the rows with that genre string, each as often as it occurs in the table |
| GenreSatisfaction.GroupStats | Week-03-EDA-and-Dashboards/exercise/data_extractor.py:74 | `count` is at most the group's row count; `mean` is defined iff `count` is positive, and that holds iff some row of the group has a rating |
| GenreSatisfaction.Grouped | Week-03-EDA-and-Dashboards/exercise/data_extractor.py:74 | one entry per genre string that occurs, holding the mean and count of that group's ratings |
| GenreSatisfaction.AnalyzeGenresHighestViewerSatisfactionRatings | Week-03-EDA-and-Dashboards/exercise/data_extractor.py:66-77 | returns `None` iff `genres` or `rating` is absent; never raises; otherwise the groups, sorted by mean, highest first |
| GenreSatisfaction.SatisfactionEntries | Week-03-EDA-and-Dashboards/exercise/data_extractor.py:74-75 | with both columns present, an entry is in the result iff its genre string occurs and it holds that group's statistics; each genre appears once |
| GenreSatisfaction.SatisfactionMeansNonIncreasing | Week-03-EDA-and-Dashboards/exercise/data_extractor.py:75 | a mean that comes after a defined mean is itself defined and no larger |
| GenreSatisfaction.GroupCountIsRowCount | Week-03-EDA-and-Dashboards/exercise/data_extractor.py:74 | `count` is the number of positions whose row has that exact genre string and a rating; it is at most the group's row count, and equal to it when no rating is missing |
| GenreSatisfaction.SingleRowGroup | Week-03-EDA-and-Dashboards/exercise/data_extractor.py:74-75 | a table of one rated row gives exactly one group, keyed by that row's genre string as it stands, with that rating as mean and count 1 |
| GenreSatisfaction.WholeStringIsTheGroupKey | Week-03-EDA-and-Dashboards/exercise/data_extractor.py:74 | a row with genres `Action\|Drama` forms a group keyed `Action\|Drama` |
| RatingByYear.YearKeys | Week-03-EDA-and-Dashboards/exercise/data_extractor.py:80 | the group keys are exactly the non-missing years |
| RatingByYear.RowsOfYear | Week-03-EDA-and-Dashboards/exercise/data_extractor.py:80 | a year's group holds exactly the rows of that year, each as often as it occurs in the table |
| RatingByYear.AscendingYears | Week-03-EDA-and-Dashboards/exercise/data_extractor.py:80 | the years that occur, each once, in strictly ascending order |
| RatingByYear.EarlierIsTotalPreorder | Week-03-EDA-and-Dashboards/exercise/data_extractor.py:80 | helper for `Sort`'s precondition: `<=` on years is a total preorder |
| RatingByYear.SortedDistinctIsAscending | Week-03-EDA-and-Dashboards/exercise/data_extractor.py:80 | sorting distinct years gives a strictly ascending sequence of the same years |
| RatingByYear.StatsOf | Week-03-EDA-and-Dashboards/exercise/data_extractor.py:80-82 | a year's `avg_rating` is defined iff some row of that year has a rating, and `num_unique_movies` is positive iff some row of that year has a movie id |
| RatingByYear.YearlyStats | Week-03-EDA-and-Dashboards/exercise/data_extractor.py:80-85 | one row per year that occurs, in strictly ascending order, each holding that year's statistics |
| RatingByYear.AnalyzeRatingByYear | Week-03-EDA-and-Dashboards/exercise/data_extractor.py:79-90 | raises `KeyError` iff `year`, `rating` or `movie_id` is absent, naming `year` alone when it is absent and otherwise the missing ones among `rating` and `movie_id`; never returns `None`; otherwise the yearly mean rating and distinct movie count, one row per year that occurs, years ascending |
| RatingByYear.UniqueMoviesBound | Week-03-EDA-and-Dashboards/exercise/data_extractor.py:82 | `num_unique_movies` is the number of distinct non-missing movie ids in the year, at most the year's row count |
| BestRated.TitleKeys | Week-03-EDA-and-Dashboards/exercise/data_extractor.py:98 | the group keys are exactly the non-missing titles |
| BestRated.RowsWithTitle | Week-03-EDA-and-Dashboards/exercise/data_extractor.py:98 | a title's group holds exactly the rows with that title, each as often as it occurs in the table |
| BestRated.TitleMean | Week-03-EDA-and-Dashboards/exercise/data_extractor.py:98 | a title's mean is defined iff some row with that title has a rating |
| BestRated.TitleMeans | Week-03-EDA-and-Dashboards/exercise/data_extractor.py:98 | one entry per distinct title, each holding that title's mean rating |
| BestRated.HeadLength | Week-03-EDA-and-Dashboards/exercise/data_extractor.py:98 | `head(n)` keeps `min(n, len)` entries for `n >= 0`, and `len - min(-n, len)` for negative `n` |
| BestRated.Head | Week-03-EDA-and-Dashboards/exercise/data_extractor.py:98 | `head(n)` is a prefix of length `min(n, len)` for `n >= 0`, and `max(0, len + n)` for negative `n` |
| BestRated.FindBestRatedMovies | Week-03-EDA-and-Dashboards/exercise/data_extractor.py:93-100 | returns `None` iff `rating` or `title` is absent; never raises; otherwise a list sorted by mean, highest first, whose length is `head(top_n)` of the number of distinct titles |
| BestRated.PrefixOutranksRest | Week-03-EDA-and-Dashboards/exercise/data_extractor.py:98 | in a sorted permutation, every entry of a prefix ranks at least as high as every entry left out |
| BestRated.BestRatedAreTopN | Week-03-EDA-and-Dashboards/exercise/data_extractor.py:98 | each title shown is a distinct title with its exact mean; no title left out has a higher mean than a title shown |
| BestRated.TopEntriesOutrank | Week-03-EDA-and-Dashboards/exercise/data_extractor.py:98 | no title left out of a prefix of the ranking has a higher mean than a title in it |
| RatingsTable.PresentRatings | Week-03-EDA-and-Dashboards/exercise/data_extractor.py:74 | the non-missing ratings are no more than the rows; there are none iff every rating is missing; when none is missing they are the rows' ratings, position by position |
| RatingsTable.PresentRatingsFromRows | Week-03-EDA-and-Dashboards/exercise/data_extractor.py:74 | every non-missing rating comes from a row |
| RatingsTable.PresentMovieIds | Week-03-EDA-and-Dashboards/exercise/data_extractor.py:82 | the non-missing movie ids are exactly those of the rows |
| RatingsTable.Mean | Week-03-EDA-and-Dashboards/exercise/data_extractor.py:74 | the mean is defined iff there is a rating, and the mean times the count is the sum |
| RatingsTable.SumBounds | Week-03-EDA-and-Dashboards/exercise/data_extractor.py:74 | a sum of values within bounds lies within the bounds times the count |
| RatingsTable.MeanBounds | Week-03-EDA-and-Dashboards/exercise/data_extractor.py:74 | the mean of values within bounds lies within the bounds |
| RatingsTable.RatingMeanBounds | Week-03-EDA-and-Dashboards/exercise/data_extractor.py:81 | the mean rating of rows whose ratings lie within bounds lies within the bounds |
| Sorting.Insert | Week-03-EDA-and-Dashboards/exercise/data_extractor.py:58 | inserting into a sorted sequence keeps it sorted and adds exactly that element |
| Sorting.Sort | Week-03-EDA-and-Dashboards/exercise/data_extractor.py:58 | `sort_values` returns a sorted permutation of its input |
| Sorting.SortedPrefix | Week-03-EDA-and-Dashboards/exercise/data_extractor.py:98 | a prefix of a sorted sequence is sorted |
| Scenarios.ThreeMovies | Week-03-EDA-and-Dashboards/exercise/data_extractor.py:39-58 | for movies tagged `Sci-Fi\|Action`, `Action` and `Comedy` with threshold 2, the breakdown is Action 2 and Other 2 |
| Scenarios.FrequentOtherTagIsOverwritten | Week-03-EDA-and-Dashboards/exercise/data_extractor.py:49-55 | the tags `Other`, `Other` and any one other tag, with threshold 2, fold to the single entry Other 1: the real `Other` count 2 is overwritten |
| Scenarios.ThreeMoviesAtDefaultThreshold | Week-03-EDA-and-Dashboards/exercise/data_extractor.py:39-58 | with the default `min_threshold` of 100, the three movies' tags are all rare and the breakdown is the single entry Other 4 |
| Scenarios.ThreeTitlesAtDefaultTopN | Week-03-EDA-and-Dashboards/exercise/data_extractor.py:93-100 | with the default `top_n` of 10, all three distinct titles of the three-movie table are listed |
| Scenarios.EmptyTableGivesEmptyResults | Week-03-EDA-and-Dashboards/exercise/data_extractor.py:32-100 | an empty table cleans to itself with 0 rows removed, and each analysis of it is empty, not an error |

## Left out

- `load_data` (lines 4-20): it reads a CSV file and exits the process on error. That is I/O, so the model starts from a table.
- `display_dataframe_info` (lines 22-30) and every `print`, including the percentage lines of the genre breakdown (lines 60-62): they produce console output only.
- `.round(3)` (lines 74 and 83): means are exact `real` values, not rounded floats. Floating-point arithmetic is not modelled.
- The text of pandas' error messages. A `KeyError` records only which columns are missing.
- Tie order: pandas' `sort_values` is not stable by default, so equal keys may come out in any order. The model does not fix an order.
- Cell types: genres are modelled as strings or missing. A non-string genre cell, which `str.split` would turn into NaN, is not modelled. Neither is a genres column whose dtype is not string (for example an all-NaN float column): there `.str` at line 46 raises `AttributeError`.
- `Week-03-EDA-and-Dashboards/exercise/dashboard.py` is not part of this model. It is the user interface that calls the analyses.
- Cleaning.RemoveMissingValuesAndDuplicates: it requires a table in which absent columns hold no values. A real DataFrame has no cells outside its columns.
- pandas' index and column labels are not modelled. A result is a sequence of (key, value) pairs.
