/**
 Genre breakdown: how many movies carry each genre tag, with the tags that fall
 below a threshold folded into one "Other" entry, largest count first.
 */
module GenreBreakdown {
  import opened Wrappers
  import opened RatingsTable
  import opened Seqs
  import Sorting

  const Separator: char := '|'
  const OtherLabel: string := "Other"
  /** The value of `min_threshold` when the caller passes none. */
  const DefaultMinThreshold: int := 100

  // ---------------------------------------------------------------------------
  // Splitting a genre string on the separator (Python's str.split(sep))
  // ---------------------------------------------------------------------------

  /** The pieces of `s` between occurrences of `sep`; empty pieces are kept. */
  function SplitOn(s: string, sep: char): (parts: seq<string>)
    ensures |parts| >= 1
    ensures forall i :: 0 <= i < |parts| ==> sep !in parts[i]
  {
    if |s| == 0 then [""]
    else
      var rest := SplitOn(s[1..], sep);
      if s[0] == sep then [""] + rest else [[s[0]] + rest[0]] + rest[1..]
  }

  /** The pieces glued back together with `sep` between them. */
  function JoinWith(parts: seq<string>, sep: char): string
    requires |parts| >= 1
  {
    if |parts| == 1 then parts[0] else parts[0] + [sep] + JoinWith(parts[1..], sep)
  }

  /** Splitting loses nothing: joining the pieces gives back the string. */
  lemma {:induction false} JoinSplit(s: string, sep: char)
    ensures JoinWith(SplitOn(s, sep), sep) == s
  {
    if |s| > 0 {
      JoinSplit(s[1..], sep);
      var rest := SplitOn(s[1..], sep);
      if s[0] == sep {
        assert SplitOn(s, sep)[1..] == rest;
      } else {
        var parts := SplitOn(s, sep);
        if |rest| == 1 {
          assert parts == [[s[0]] + rest[0]];
        } else {
          assert parts[1..] == rest[1..];
          assert JoinWith(rest, sep) == rest[0] + [sep] + JoinWith(rest[1..], sep);
        }
        assert s == [s[0]] + s[1..];
      }
    }
  }

  lemma {:induction false} SplitPiece(a: string, sep: char, b: string)
    requires sep !in a
    ensures SplitOn(a + [sep] + b, sep) == [a] + SplitOn(b, sep)
    ensures SplitOn(a, sep) == [a]
  {
    if |a| > 0 {
      SplitPiece(a[1..], sep, b);
      assert (a + [sep] + b)[1..] == a[1..] + [sep] + b;
      assert a == [a[0]] + a[1..];
    } else {
      assert a + [sep] + b == [sep] + b;
    }
  }

  /** Pieces free of the separator are recovered by splitting their join. */
  lemma {:induction false} SplitJoin(parts: seq<string>, sep: char)
    requires |parts| >= 1
    requires forall i :: 0 <= i < |parts| ==> sep !in parts[i]
    ensures SplitOn(JoinWith(parts, sep), sep) == parts
  {
    if |parts| == 1 {
      SplitPiece(parts[0], sep, "");
    } else {
      SplitJoin(parts[1..], sep);
      SplitPiece(parts[0], sep, JoinWith(parts[1..], sep));
    }
  }

  // ---------------------------------------------------------------------------
  // Movies and their tags
  // ---------------------------------------------------------------------------

  /** A row reduced to the movie columns (movie_id, title, genres). */
  datatype MovieKey = MovieKey(movieId: Option<int>, title: Option<string>, genres: Option<string>)

  function Movies(rows: seq<Row>): (ms: seq<MovieKey>)
    ensures |ms| == |rows|
    ensures forall i :: 0 <= i < |rows| ==> ms[i] == MovieKey(rows[i].movieId, rows[i].title, rows[i].genres)
  {
    if |rows| == 0 then []
    else [MovieKey(rows[0].movieId, rows[0].title, rows[0].genres)] + Movies(rows[1..])
  }

  /** The tags of every movie in turn; a movie without genres contributes none. */
  function Explode(movies: seq<MovieKey>): (tags: seq<string>)
    ensures forall i :: 0 <= i < |tags| ==> Separator !in tags[i]
  {
    if |movies| == 0 then []
    else
      (match movies[0].genres
       case Some(g) => SplitOn(g, Separator)
       case None => []) + Explode(movies[1..])
  }

  /** A movie on its own explodes to the split pieces of its genre string, or to nothing. */
  lemma ExplodeSingle(m: MovieKey)
    ensures Explode([m]) == match m.genres case Some(g) => SplitOn(g, Separator) case None => []
  {
    assert [m][1..] == [];
  }

  lemma ExplodeCons(m: MovieKey, g: string, rest: seq<MovieKey>)
    requires m.genres == Some(g)
    ensures Explode([m] + rest) == SplitOn(g, Separator) + Explode(rest)
  {
    assert ([m] + rest)[1..] == rest;
  }

  /** Exploding a concatenation explodes each part in turn; with ExplodeSingle this fixes Explode. */
  lemma {:induction false} ExplodeConcat(a: seq<MovieKey>, b: seq<MovieKey>)
    ensures Explode(a + b) == Explode(a) + Explode(b)
  {
    if |a| == 0 {
      assert a + b == b;
    } else {
      assert (a + b)[1..] == a[1..] + b;
      ExplodeConcat(a[1..], b);
    }
  }

  /** A tag comes out of `explode` iff it is a split piece of some movie's genre string. */
  lemma {:induction false} ExplodeMembers(movies: seq<MovieKey>)
    ensures forall x :: x in Explode(movies) <==>
              exists i :: 0 <= i < |movies| && movies[i].genres.Some? && x in SplitOn(movies[i].genres.value, Separator)
  {
    if |movies| > 0 {
      var tail := movies[1..];
      ExplodeMembers(tail);
      var head := match movies[0].genres case Some(g) => SplitOn(g, Separator) case None => [];
      assert Explode(movies) == head + Explode(tail);
      forall x ensures x in Explode(movies) <==>
                exists i :: 0 <= i < |movies| && movies[i].genres.Some? && x in SplitOn(movies[i].genres.value, Separator)
      {
        if x in Explode(tail) {
          var j :| 0 <= j < |tail| && tail[j].genres.Some? && x in SplitOn(tail[j].genres.value, Separator);
          assert movies[j + 1] == tail[j];
        }
        if exists i :: 0 <= i < |movies| && movies[i].genres.Some? && x in SplitOn(movies[i].genres.value, Separator) {
          var i :| 0 <= i < |movies| && movies[i].genres.Some? && x in SplitOn(movies[i].genres.value, Separator);
          if i > 0 {
            assert tail[i - 1] == movies[i];
          }
        }
      }
    }
  }

  /** The tags of the distinct movies are exactly the split pieces of the rows' genre strings. */
  lemma MovieTagsMembers(rows: seq<Row>)
    ensures forall x :: x in Explode(Dedup(Movies(rows))) <==>
              exists row :: row in rows && row.genres.Some? && x in SplitOn(row.genres.value, Separator)
  {
    var all := Movies(rows);
    var ms := Dedup(all);
    ExplodeMembers(ms);
    forall x ensures x in Explode(ms) <==>
              exists row :: row in rows && row.genres.Some? && x in SplitOn(row.genres.value, Separator)
    {
      if x in Explode(ms) {
        var i :| 0 <= i < |ms| && ms[i].genres.Some? && x in SplitOn(ms[i].genres.value, Separator);
        assert ms[i] in all;
        var j :| 0 <= j < |all| && all[j] == ms[i];
        assert rows[j] in rows;
      }
      if exists row :: row in rows && row.genres.Some? && x in SplitOn(row.genres.value, Separator) {
        var row :| row in rows && row.genres.Some? && x in SplitOn(row.genres.value, Separator);
        var j :| 0 <= j < |rows| && rows[j] == row;
        assert all[j] in ms;
        var i :| 0 <= i < |ms| && ms[i] == all[j];
      }
    }
  }

  /** One tag occurrence per (distinct movie, tag) pair: what `value_counts` counts. */
  function MovieTags(rows: seq<Row>): (tags: seq<string>)
    ensures forall i :: 0 <= i < |tags| ==> Separator !in tags[i]
    ensures |tags| == PieceCount(Dedup(Movies(rows)))
    ensures forall x :: x in tags <==> exists row :: row in rows && row.genres.Some? && x in SplitOn(row.genres.value, Separator)
  {
    ExplodeLength(Dedup(Movies(rows)));
    MovieTagsMembers(rows);
    Explode(Dedup(Movies(rows)))
  }

  /** Each movie contributes as many tag occurrences as its genre string has pieces. */
  function PieceCount(movies: seq<MovieKey>): nat {
    if |movies| == 0 then 0
    else
      (match movies[0].genres
       case Some(g) => |SplitOn(g, Separator)|
       case None => 0) + PieceCount(movies[1..])
  }

  lemma {:induction false} ExplodeLength(movies: seq<MovieKey>)
    ensures |Explode(movies)| == PieceCount(movies)
  {
    if |movies| > 0 {
      ExplodeLength(movies[1..]);
    }
  }

  // ---------------------------------------------------------------------------
  // Counting and folding
  // ---------------------------------------------------------------------------

  /** (key, number of occurrences) for every key, in the order given. */
  function CountPairs(keys: seq<string>, m: multiset<string>): (r: seq<(string, nat)>)
    ensures |r| == |keys|
    ensures forall i :: 0 <= i < |keys| ==> r[i] == (keys[i], m[keys[i]])
  {
    if |keys| == 0 then [] else [(keys[0], m[keys[0]])] + CountPairs(keys[1..], m)
  }

  /** Tag counts (`value_counts`): one entry per distinct tag, with its number of occurrences. */
  function ValueCounts(tags: seq<string>): (r: seq<(string, nat)>)
    ensures KeysDistinct(r)
    ensures forall p :: p in r <==> p.0 in tags && p.1 == multiset(tags)[p.0]
  {
    DistinctCounts(tags);
    CountPairs(Dedup(tags), multiset(tags))
  }

  lemma DistinctCounts(tags: seq<string>)
    ensures KeysDistinct(CountPairs(Dedup(tags), multiset(tags)))
    ensures forall p :: p in CountPairs(Dedup(tags), multiset(tags)) <==> p.0 in tags && p.1 == multiset(tags)[p.0]
  {
    var d := Dedup(tags);
    var counts := CountPairs(d, multiset(tags));
    forall p: (string, nat) | p.0 in tags && p.1 == multiset(tags)[p.0] ensures p in counts {
      var i :| 0 <= i < |d| && d[i] == p.0;
      assert counts[i] == p;
    }
  }

  /** The entries below the threshold (`below`) or at or above it (`!below`). */
  function Band(counts: seq<(string, nat)>, threshold: int, below: bool): (r: seq<(string, nat)>)
    ensures forall p :: p in r <==> p in counts && (p.1 < threshold) == below
    ensures KeysDistinct(counts) ==> KeysDistinct(r)
  {
    if |counts| == 0 then []
    else
      var rest := Band(counts[1..], threshold, below);
      if (counts[0].1 < threshold) == below then
        assert KeysDistinct(counts) ==> forall p :: p in rest ==> p.0 != counts[0].0;
        [counts[0]] + rest
      else rest
  }

  /** Every entry keyed `k` set to `v`. */
  function Replace(s: seq<(string, nat)>, k: string, v: nat): (r: seq<(string, nat)>)
    ensures |r| == |s|
    ensures forall i :: 0 <= i < |s| ==> r[i] == if s[i].0 == k then (k, v) else s[i]
  {
    if |s| == 0 then [] else [if s[0].0 == k then (k, v) else s[0]] + Replace(s[1..], k, v)
  }

  /** The series assignment `s[k] = v`: overwrites an existing entry, else appends one. */
  function Assign(s: seq<(string, nat)>, k: string, v: nat): (r: seq<(string, nat)>)
    ensures (k, v) in r
    ensures forall p :: p in r ==> p == (k, v) || (p in s && p.0 != k)
    ensures forall p :: p in s && p.0 != k ==> p in r
    ensures KeysDistinct(s) ==> KeysDistinct(r)
  {
    if k in Keys(s) then
      ReplacePresent(s, k, v);
      Replace(s, k, v)
    else
      AppendAbsent(s, k, v);
      s + [(k, v)]
  }

  /** Overwriting a key that is present: what `Assign` promises. */
  lemma ReplacePresent(s: seq<(string, nat)>, k: string, v: nat)
    requires k in Keys(s)
    ensures (k, v) in Replace(s, k, v)
    ensures forall p :: p in Replace(s, k, v) ==> p == (k, v) || (p in s && p.0 != k)
    ensures forall p :: p in s && p.0 != k ==> p in Replace(s, k, v)
    ensures KeysDistinct(s) ==> KeysDistinct(Replace(s, k, v))
  {
    var r := Replace(s, k, v);
    var i :| 0 <= i < |s| && Keys(s)[i] == k;
    assert r[i] == (k, v);
    forall p | p in r ensures p == (k, v) || (p in s && p.0 != k) {
      var j :| 0 <= j < |r| && r[j] == p;
      assert r[j] == if s[j].0 == k then (k, v) else s[j];
    }
    forall p | p in s && p.0 != k ensures p in r {
      var j :| 0 <= j < |s| && s[j] == p;
      assert r[j] == p;
    }
    ReplaceKeepsKeysDistinct(s, k, v);
  }

  lemma ReplaceKeepsKeysDistinct(s: seq<(string, nat)>, k: string, v: nat)
    ensures KeysDistinct(s) ==> KeysDistinct(Replace(s, k, v))
  {
    var r := Replace(s, k, v);
    if KeysDistinct(s) {
      forall i, j | 0 <= i < j < |r| ensures r[i].0 != r[j].0 {
        assert r[i].0 == s[i].0 && r[j].0 == s[j].0;
      }
    }
  }

  /** Appending a key that is absent: what `Assign` promises. */
  lemma AppendAbsent(s: seq<(string, nat)>, k: string, v: nat)
    requires k !in Keys(s)
    ensures (k, v) in s + [(k, v)]
    ensures forall p :: p in s + [(k, v)] ==> p == (k, v) || (p in s && p.0 != k)
    ensures KeysDistinct(s) ==> KeysDistinct(s + [(k, v)])
  {
    assert forall i :: 0 <= i < |s| ==> s[i].0 != k by {
      forall i | 0 <= i < |s| ensures s[i].0 != k {
        assert Keys(s)[i] == s[i].0;
      }
    }
    assert (s + [(k, v)])[|s|] == (k, v);
  }

  /**
   The breakdown before sorting: the tags at or above the threshold with their
   counts, and, when any tag is below it, "Other" assigned the sum of those counts.
   */
  function FoldRare(tags: seq<string>, threshold: int): (r: seq<(string, nat)>)
    ensures KeysDistinct(r)
    ensures forall p :: p in r ==> p.0 == OtherLabel || (p.0 in tags && p.1 == multiset(tags)[p.0] && p.1 >= threshold)
  {
    var counts := ValueCounts(tags);
    var above := Band(counts, threshold, false);
    var below := Band(counts, threshold, true);
    if |below| > 0 then Assign(above, OtherLabel, Total(below)) else above
  }

  predicate MoreOrEqualCount(a: (string, nat), b: (string, nat)) {
    a.1 >= b.1
  }

  function AnalyzeGenresBreakdown(t: Table, minThreshold: int): (r: Outcome<seq<(string, nat)>>)
    ensures r.ReturnsNone? <==> Genres !in t.columns
    ensures r.KeyError? <==> Genres in t.columns && !(MovieId in t.columns && Title in t.columns)
    ensures r.KeyError? ==> r.missing == {MovieId, Title} - t.columns
    ensures r.Ok? ==> Sorting.SortedBy(r.value, MoreOrEqualCount)
    ensures r.Ok? ==> multiset(r.value) == multiset(FoldRare(MovieTags(t.rows), minThreshold))
  {
    if Genres !in t.columns then ReturnsNone
    else if !(MovieId in t.columns && Title in t.columns) then KeyError({MovieId, Title} - t.columns)
    else Ok(Sorting.Sort(FoldRare(MovieTags(t.rows), minThreshold), MoreOrEqualCount))
  }

  // ---------------------------------------------------------------------------
  // What the breakdown holds, stated on tag occurrences
  // ---------------------------------------------------------------------------

  /** The occurrences of tags whose count `m` puts below (or not below) the threshold. */
  function Occurrences(s: seq<string>, m: multiset<string>, threshold: int, below: bool): (r: seq<string>)
    ensures |r| <= |s|
  {
    if |s| == 0 then []
    else (if (m[s[0]] < threshold) == below then [s[0]] else []) + Occurrences(s[1..], m, threshold, below)
  }

  /** The occurrences of tags seen fewer than `threshold` times. */
  function RareOccurrences(tags: seq<string>, threshold: int): seq<string> {
    Occurrences(tags, multiset(tags), threshold, true)
  }

  /**
   The count the breakdown shows for label `g`: "Other" gets the number of
   occurrences of rare tags when there are any; any other label present at or
   above the threshold gets its own count (which includes a real tag named
   "Other" when nothing is rare).
   */
  function ExpectedCount(tags: seq<string>, threshold: int, g: string): Option<nat> {
    var rare := |RareOccurrences(tags, threshold)|;
    if g == OtherLabel && rare > 0 then Some(rare)
    else if g in tags && multiset(tags)[g] >= threshold then Some(multiset(tags)[g])
    else None
  }

  /** Sum over the distinct keys `d` on one side of the threshold of their count in `c`. */
  function BandSum(d: seq<string>, c: multiset<string>, m: multiset<string>, threshold: int, below: bool): nat {
    if |d| == 0 then 0
    else (if (m[d[0]] < threshold) == below then c[d[0]] else 0) + BandSum(d[1..], c, m, threshold, below)
  }

  lemma {:induction false} BandTotal(d: seq<string>, m: multiset<string>, threshold: int, below: bool)
    ensures Total(Band(CountPairs(d, m), threshold, below)) == BandSum(d, m, m, threshold, below)
  {
    if |d| > 0 {
      BandTotal(d[1..], m, threshold, below);
      assert CountPairs(d, m)[1..] == CountPairs(d[1..], m);
    }
  }

  lemma {:induction false} BandSumUnion(d: seq<string>, c1: multiset<string>, c2: multiset<string>, m: multiset<string>, threshold: int, below: bool)
    ensures BandSum(d, c1 + c2, m, threshold, below) == BandSum(d, c1, m, threshold, below) + BandSum(d, c2, m, threshold, below)
  {
    if |d| > 0 {
      BandSumUnion(d[1..], c1, c2, m, threshold, below);
    }
  }

  lemma {:induction false} BandSumSingle(d: seq<string>, x: string, m: multiset<string>, threshold: int, below: bool)
    requires NoDuplicates(d)
    ensures BandSum(d, multiset{x}, m, threshold, below) == if x in d && (m[x] < threshold) == below then 1 else 0
  {
    if |d| > 0 {
      BandSumSingle(d[1..], x, m, threshold, below);
      assert d[0] !in d[1..];
    }
  }

  /** Summing counts over distinct keys equals counting the occurrences themselves. */
  lemma {:induction false} BandSumCountsOccurrences(d: seq<string>, s: seq<string>, m: multiset<string>, threshold: int, below: bool)
    requires NoDuplicates(d)
    requires forall x :: x in s ==> x in d
    ensures BandSum(d, multiset(s), m, threshold, below) == |Occurrences(s, m, threshold, below)|
  {
    if |s| == 0 {
      BandSumEmpty(d, m, threshold, below);
    } else {
      assert multiset(s) == multiset{s[0]} + multiset(s[1..]) by {
        assert s == [s[0]] + s[1..];
      }
      BandSumUnion(d, multiset{s[0]}, multiset(s[1..]), m, threshold, below);
      BandSumSingle(d, s[0], m, threshold, below);
      BandSumCountsOccurrences(d, s[1..], m, threshold, below);
    }
  }

  lemma {:induction false} BandSumEmpty(d: seq<string>, m: multiset<string>, threshold: int, below: bool)
    ensures BandSum(d, multiset{}, m, threshold, below) == 0
  {
    if |d| > 0 {
      BandSumEmpty(d[1..], m, threshold, below);
    }
  }

  lemma {:induction false} OccurrencesSplit(s: seq<string>, m: multiset<string>, threshold: int)
    ensures |Occurrences(s, m, threshold, true)| + |Occurrences(s, m, threshold, false)| == |s|
  {
    if |s| > 0 {
      OccurrencesSplit(s[1..], m, threshold);
    }
  }

  /** Each side of the threshold totals the occurrences of its tags. */
  lemma BandTotalIsOccurrences(tags: seq<string>, threshold: int, below: bool)
    ensures Total(Band(ValueCounts(tags), threshold, below)) == |Occurrences(tags, multiset(tags), threshold, below)|
  {
    var d := Dedup(tags);
    BandTotal(d, multiset(tags), threshold, below);
    BandSumCountsOccurrences(d, tags, multiset(tags), threshold, below);
  }

  /** There is a rare tag exactly when the below-threshold band is non-empty. */
  lemma RareBandNonEmpty(tags: seq<string>, threshold: int)
    ensures (|Band(ValueCounts(tags), threshold, true)| > 0) <==> (|RareOccurrences(tags, threshold)| > 0)
  {
    var below := Band(ValueCounts(tags), threshold, true);
    BandTotalIsOccurrences(tags, threshold, true);
    if |below| > 0 {
      assert below[0] in below;
      assert below[0].0 in tags;
      assert below[0].1 >= 1;
    }
  }

  /** The unsorted breakdown holds exactly the expected entries, once each. */
  lemma FoldRareEntries(tags: seq<string>, threshold: int)
    ensures KeysDistinct(FoldRare(tags, threshold))
    ensures forall g, v :: (g, v) in FoldRare(tags, threshold) <==> ExpectedCount(tags, threshold, g) == Some(v)
  {
    var counts := ValueCounts(tags);
    var above := Band(counts, threshold, false);
    var below := Band(counts, threshold, true);
    RareBandNonEmpty(tags, threshold);
    BandTotalIsOccurrences(tags, threshold, true);
  }

  // ---------------------------------------------------------------------------
  // Properties of the breakdown
  // ---------------------------------------------------------------------------

  /**
   Threshold boundary and folding: every label the breakdown shows, with the
   count it shows, is the expected one, and every expected label is shown.
   */
  lemma BreakdownEntries(t: Table, minThreshold: int, g: string, v: nat)
    requires {Genres, MovieId, Title} <= t.columns
    ensures AnalyzeGenresBreakdown(t, minThreshold).Ok?
    ensures (g, v) in AnalyzeGenresBreakdown(t, minThreshold).value <==> ExpectedCount(MovieTags(t.rows), minThreshold, g) == Some(v)
  {
    var r := AnalyzeGenresBreakdown(t, minThreshold).value;
    FoldRareEntries(MovieTags(t.rows), minThreshold);
    assert (g, v) in r <==> (g, v) in multiset(r);
  }

  /** A tag seen exactly `minThreshold` times keeps its own entry. */
  lemma ThresholdIsInclusive(t: Table, minThreshold: int, g: string)
    requires {Genres, MovieId, Title} <= t.columns
    requires g != OtherLabel && g in MovieTags(t.rows) && multiset(MovieTags(t.rows))[g] == minThreshold
    ensures (g, minThreshold as nat) in AnalyzeGenresBreakdown(t, minThreshold).value
  {
    BreakdownEntries(t, minThreshold, g, minThreshold as nat);
  }

  /** No label appears twice in the breakdown. */
  lemma BreakdownKeysDistinct(t: Table, minThreshold: int)
    requires {Genres, MovieId, Title} <= t.columns
    ensures AnalyzeGenresBreakdown(t, minThreshold).Ok?
    ensures KeysDistinct(AnalyzeGenresBreakdown(t, minThreshold).value)
  {
    var folded := FoldRare(MovieTags(t.rows), minThreshold);
    FoldRareEntries(MovieTags(t.rows), minThreshold);
    PermutationKeysDistinct(folded, AnalyzeGenresBreakdown(t, minThreshold).value);
  }

  lemma {:induction false} ReplaceTotal(s: seq<(string, nat)>, k: string, w: nat, v: nat)
    requires KeysDistinct(s) && (k, w) in s
    ensures Total(Replace(s, k, v)) + w == Total(s) + v
  {
    if s[0].0 == k {
      assert s[0] == (k, w);
      assert forall p :: p in s[1..] ==> p.0 != k;
      ReplaceUnchanged(s[1..], k, v);
      assert Replace(s, k, v)[1..] == Replace(s[1..], k, v);
    } else {
      ReplaceTotal(s[1..], k, w, v);
      assert Replace(s, k, v)[1..] == Replace(s[1..], k, v);
    }
  }

  lemma ReplaceUnchanged(s: seq<(string, nat)>, k: string, v: nat)
    requires forall p :: p in s ==> p.0 != k
    ensures Replace(s, k, v) == s
  {
  }

  /** Whether the folded sum overwrites the entry of a frequent real "Other" tag. */
  predicate OtherOverwritten(tags: seq<string>, threshold: int) {
    && OtherLabel in tags && multiset(tags)[OtherLabel] >= threshold
    && |RareOccurrences(tags, threshold)| > 0
  }

  /** Assigning over a present key trades its old value for the new one in the total. */
  lemma AssignTotalPresent(s: seq<(string, nat)>, k: string, w: nat, v: nat)
    requires KeysDistinct(s) && (k, w) in s
    ensures Total(Assign(s, k, v)) + w == Total(s) + v
  {
    var i :| 0 <= i < |s| && s[i] == (k, w);
    assert Keys(s)[i] == k;
    ReplaceTotal(s, k, w, v);
  }

  /** Assigning a new key adds its value to the total. */
  lemma AssignTotalAbsent(s: seq<(string, nat)>, k: string, v: nat)
    requires forall p :: p in s ==> p.0 != k
    ensures Total(Assign(s, k, v)) == Total(s) + v
  {
    assert k !in Keys(s) by {
      forall i | 0 <= i < |s| ensures Keys(s)[i] != k {
        assert s[i] in s;
      }
    }
    TotalConcat(s, [(k, v)]);
  }

  lemma FoldRareTotalWhenAssigned(tags: seq<string>, threshold: int)
    requires |Band(ValueCounts(tags), threshold, true)| > 0
    ensures Total(FoldRare(tags, threshold))
              == Total(Band(ValueCounts(tags), threshold, false)) + Total(Band(ValueCounts(tags), threshold, true))
                 - (if OtherLabel in tags && multiset(tags)[OtherLabel] >= threshold then multiset(tags)[OtherLabel] else 0)
  {
    var counts := ValueCounts(tags);
    var above := Band(counts, threshold, false);
    var below := Band(counts, threshold, true);
    var m := multiset(tags);
    if OtherLabel in tags && m[OtherLabel] >= threshold {
      assert (OtherLabel, m[OtherLabel]) in above;
      AssignTotalPresent(above, OtherLabel, m[OtherLabel], Total(below));
    } else {
      AssignTotalAbsent(above, OtherLabel, Total(below));
    }
  }

  /**
   The unsorted breakdown totals the tag occurrences, less the count of a
   frequent real "Other" tag when the folded sum overwrites it.
   */
  lemma FoldRareTotal(tags: seq<string>, threshold: int)
    ensures Total(FoldRare(tags, threshold))
              == |tags| - (if OtherOverwritten(tags, threshold) then multiset(tags)[OtherLabel] else 0)
  {
    var below := Band(ValueCounts(tags), threshold, true);
    RareBandNonEmpty(tags, threshold);
    BandTotalIsOccurrences(tags, threshold, true);
    BandTotalIsOccurrences(tags, threshold, false);
    OccurrencesSplit(tags, multiset(tags), threshold);
    if |below| > 0 {
      FoldRareTotalWhenAssigned(tags, threshold);
    }
  }

  /**
   Conservation: the counts add up to the number of (distinct movie, tag)
   pairs, less the count of a frequent real "Other" tag when the folded sum
   overwrites it.
   */
  lemma BreakdownConservation(t: Table, minThreshold: int)
    requires {Genres, MovieId, Title} <= t.columns
    ensures var tags := MovieTags(t.rows);
            Total(AnalyzeGenresBreakdown(t, minThreshold).value)
              == |tags| - (if OtherOverwritten(tags, minThreshold) then multiset(tags)[OtherLabel] else 0)
  {
    FoldRareTotal(MovieTags(t.rows), minThreshold);
    PermutationTotal(FoldRare(MovieTags(t.rows), minThreshold), AnalyzeGenresBreakdown(t, minThreshold).value);
  }

  /** With no frequent real "Other" tag, nothing is lost: the counts sum to the tag pairs. */
  lemma BreakdownConservationWithoutOtherTag(t: Table, minThreshold: int)
    requires {Genres, MovieId, Title} <= t.columns
    requires !(OtherLabel in MovieTags(t.rows) && multiset(MovieTags(t.rows))[OtherLabel] >= minThreshold)
    ensures Total(AnalyzeGenresBreakdown(t, minThreshold).value) == |MovieTags(t.rows)|
    ensures Total(AnalyzeGenresBreakdown(t, minThreshold).value) == PieceCount(Dedup(Movies(t.rows)))
  {
    BreakdownConservation(t, minThreshold);
    ExplodeLength(Dedup(Movies(t.rows)));
  }
}
