/**
 Best-rated movies: the mean rating of every title, highest first, cut to the
 first `topN` entries.
 */
module BestRated {
  import opened Wrappers
  import opened RatingsTable
  import opened Seqs
  import Sorting

  /** The value of `top_n` when the caller passes none. */
  const DefaultTopN: int := 10

  /** The titles of the rows that have one, in row order. */
  function TitleKeys(rows: seq<Row>): (ks: seq<string>)
    ensures forall k :: k in ks <==> exists row :: row in rows && row.title == Some(k)
  {
    if |rows| == 0 then []
    else
      var rest := TitleKeys(rows[1..]);
      assert forall row :: row in rows <==> row == rows[0] || row in rows[1..];
      (match rows[0].title case Some(k) => [k] case None => []) + rest
  }

  /** The distinct titles of the table. */
  ghost function DistinctTitles(rows: seq<Row>): set<string> {
    set row | row in rows && row.title.Some? :: row.title.value
  }

  /** The rows of title `k`. */
  function RowsWithTitle(rows: seq<Row>, k: string): (r: seq<Row>)
    ensures forall row :: row in r <==> row in rows && row.title == Some(k)
    ensures forall row :: multiset(r)[row] == if row.title == Some(k) then multiset(rows)[row] else 0
  {
    if |rows| == 0 then []
    else
      assert rows == [rows[0]] + rows[1..];
      (if rows[0].title == Some(k) then [rows[0]] else []) + RowsWithTitle(rows[1..], k)
  }

  /** The exact mean of the present ratings of title `k` (missing if it has none). */
  function TitleMean(rows: seq<Row>, k: string): (m: Option<real>)
    ensures m.Some? <==> exists row :: row in rows && row.title == Some(k) && row.rating.Some?
  {
    Mean(PresentRatings(RowsWithTitle(rows, k)))
  }

  /** One (title, mean) entry per distinct title, in order of first appearance. */
  function TitleMeans(rows: seq<Row>): (r: seq<(string, Option<real>)>)
    ensures |r| == |DistinctTitles(rows)|
    ensures KeysDistinct(r)
    ensures forall k, m :: (k, m) in r <==> k in DistinctTitles(rows) && m == TitleMean(rows, k)
  {
    var keys := Dedup(TitleKeys(rows));
    var r := seq(|keys|, i requires 0 <= i < |keys| => (keys[i], TitleMean(rows, keys[i])));
    TitleMeansEntries(rows, keys, r);
    r
  }

  lemma DistinctTitlesCount(rows: seq<Row>)
    ensures |Dedup(TitleKeys(rows))| == |DistinctTitles(rows)|
  {
    DistinctCount(TitleKeys(rows));
    assert (set k | k in TitleKeys(rows)) == DistinctTitles(rows);
  }

  lemma TitleMeansEntries(rows: seq<Row>, keys: seq<string>, r: seq<(string, Option<real>)>)
    requires keys == Dedup(TitleKeys(rows))
    requires |r| == |keys| && forall i :: 0 <= i < |keys| ==> r[i] == (keys[i], TitleMean(rows, keys[i]))
    ensures |r| == |DistinctTitles(rows)|
    ensures KeysDistinct(r)
    ensures forall k, m :: (k, m) in r <==> k in DistinctTitles(rows) && m == TitleMean(rows, k)
  {
    DistinctTitlesCount(rows);
    forall k | k in keys ensures (k, TitleMean(rows, k)) in r {
      var i :| 0 <= i < |keys| && keys[i] == k;
      assert r[i] == (k, TitleMean(rows, k));
    }
  }

  predicate HigherMean(a: (string, Option<real>), b: (string, Option<real>)) {
    MeanAtLeast(a.1, b.1)
  }

  /**
   How many entries `head(n)` keeps of `len`: the first `n`, or for a negative
   `n` all but the last `-n`.
   */
  function HeadLength(len: nat, n: int): (k: nat)
    ensures k <= len
    ensures 0 <= n <= len ==> k == n
    ensures len <= n ==> k == len
    ensures n < 0 ==> k == len - (if -n < len then -n else len)
  {
    if n >= 0 then (if n < len then n else len)
    else if len + n > 0 then len + n else 0
  }

  function Head<T>(s: seq<T>, n: int): (r: seq<T>)
    ensures |r| == HeadLength(|s|, n)
    ensures r == s[..|r|]
  {
    s[..HeadLength(|s|, n)]
  }

  function FindBestRatedMovies(t: Table, topN: int): (r: Outcome<seq<(string, Option<real>)>>)
    ensures r.ReturnsNone? <==> Rating !in t.columns || Title !in t.columns
    ensures !r.KeyError?
    ensures r.Ok? ==> Sorting.SortedBy(r.value, HigherMean)
    ensures r.Ok? ==> |r.value| == HeadLength(|DistinctTitles(t.rows)|, topN)
  {
    if Rating !in t.columns || Title !in t.columns then ReturnsNone
    else
      var ranked := Sorting.Sort(TitleMeans(t.rows), HigherMean);
      Sorting.SortedPrefix(ranked, HigherMean, HeadLength(|ranked|, topN));
      Ok(Head(ranked, topN))
  }

  /** The first `n` entries of a ranking outrank every entry after them. */
  lemma PrefixOutranksRest(all: seq<(string, Option<real>)>, ranked: seq<(string, Option<real>)>, n: nat)
    requires Sorting.SortedBy(ranked, HigherMean) && multiset(ranked) == multiset(all)
    requires KeysDistinct(all) && n <= |ranked|
    ensures forall i, q :: 0 <= i < n && q in all && q.0 !in Keys(ranked[..n]) ==> MeanAtLeast(ranked[i].1, q.1)
  {
    forall i, q | 0 <= i < n && q in all && q.0 !in Keys(ranked[..n])
      ensures MeanAtLeast(ranked[i].1, q.1)
    {
      assert q in multiset(ranked);
      var j :| 0 <= j < |ranked| && ranked[j] == q;
      assert HigherMean(ranked[i], ranked[j]);
    }
  }

  /** A prefix of a permutation of a keyed sequence with distinct keys has distinct keys. */
  lemma PrefixKeysDistinct(all: seq<(string, Option<real>)>, ranked: seq<(string, Option<real>)>, top: seq<(string, Option<real>)>)
    requires KeysDistinct(all) && multiset(ranked) == multiset(all)
    requires |top| <= |ranked| && top == ranked[..|top|]
    ensures KeysDistinct(top)
  {
    PermutationKeysDistinct(all, ranked);
    forall i, j | 0 <= i < j < |top| ensures top[i].0 != top[j].0 {
      assert top[i] == ranked[i] && top[j] == ranked[j];
    }
  }

  /** Every entry of a prefix of the ranked title means is a title with its exact mean. */
  lemma TopEntriesExact(rows: seq<Row>, ranked: seq<(string, Option<real>)>, top: seq<(string, Option<real>)>)
    requires multiset(ranked) == multiset(TitleMeans(rows))
    requires |top| <= |ranked| && top == ranked[..|top|]
    ensures forall i :: 0 <= i < |top| ==> top[i].0 in DistinctTitles(rows) && top[i].1 == TitleMean(rows, top[i].0)
  {
    forall i | 0 <= i < |top|
      ensures top[i].0 in DistinctTitles(rows) && top[i].1 == TitleMean(rows, top[i].0)
    {
      assert top[i] == ranked[i] && ranked[i] in multiset(TitleMeans(rows));
    }
  }

  /** No title left out of a prefix of the ranking has a higher mean than one in it. */
  lemma TopEntriesOutrank(rows: seq<Row>, ranked: seq<(string, Option<real>)>, top: seq<(string, Option<real>)>)
    requires Sorting.SortedBy(ranked, HigherMean) && multiset(ranked) == multiset(TitleMeans(rows))
    requires |top| <= |ranked| && top == ranked[..|top|]
    ensures forall i, k :: 0 <= i < |top| && k in DistinctTitles(rows) && k !in Keys(top) ==>
              MeanAtLeast(top[i].1, TitleMean(rows, k))
  {
    var all := TitleMeans(rows);
    PrefixOutranksRest(all, ranked, |top|);
    forall i, k | 0 <= i < |top| && k in DistinctTitles(rows) && k !in Keys(top)
      ensures MeanAtLeast(top[i].1, TitleMean(rows, k))
    {
      assert (k, TitleMean(rows, k)) in all;
      assert top[i] == ranked[i];
    }
  }

  /**
   The output lists distinct titles, each with the exact mean of its ratings,
   and no title left out has a higher mean than any title shown.
   */
  lemma BestRatedAreTopN(t: Table, topN: int)
    requires Rating in t.columns && Title in t.columns
    ensures var r := FindBestRatedMovies(t, topN);
            && r.Ok?
            && KeysDistinct(r.value)
            && (forall i :: 0 <= i < |r.value| ==>
                  r.value[i].0 in DistinctTitles(t.rows) && r.value[i].1 == TitleMean(t.rows, r.value[i].0))
            && (forall i, k :: 0 <= i < |r.value| && k in DistinctTitles(t.rows) && k !in Keys(r.value) ==>
                  MeanAtLeast(r.value[i].1, TitleMean(t.rows, k)))
  {
    var ranked := Sorting.Sort(TitleMeans(t.rows), HigherMean);
    var r := FindBestRatedMovies(t, topN).value;
    assert r == ranked[..|r|];
    PrefixKeysDistinct(TitleMeans(t.rows), ranked, r);
    TopEntriesExact(t.rows, ranked, r);
    TopEntriesOutrank(t.rows, ranked, r);
  }
}
