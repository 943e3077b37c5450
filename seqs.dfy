/**
 Generic facts about sequences used by the aggregations: duplicate removal that
 keeps first occurrences, keyed sequences (a sequence of pairs standing for a
 labelled series), and sums of counts.
 */
module Seqs {

  /** No element occurs twice. */
  predicate NoDuplicates<T(==)>(s: seq<T>) {
    forall i, j :: 0 <= i < j < |s| ==> s[i] != s[j]
  }

  /** No key occurs twice in a sequence of (key, value) pairs. */
  predicate KeysDistinct<K(==), V>(s: seq<(K, V)>) {
    forall i, j :: 0 <= i < j < |s| ==> s[i].0 != s[j].0
  }

  /** The key sequence of a sequence of pairs. */
  function Keys<K, V>(s: seq<(K, V)>): (ks: seq<K>)
    ensures |ks| == |s|
    ensures forall i :: 0 <= i < |s| ==> ks[i] == s[i].0
  {
    if |s| == 0 then [] else [s[0].0] + Keys(s[1..])
  }

  /** Pairing every key with `f` of it gives exactly the pairs (k, f(k)) for k among the keys. */
  lemma KeyedEntries<K, V>(keys: seq<K>, f: K -> V, r: seq<(K, V)>)
    requires |r| == |keys| && forall i :: 0 <= i < |keys| ==> r[i] == (keys[i], f(keys[i]))
    ensures forall k, v :: (k, v) in r <==> k in keys && v == f(k)
    ensures NoDuplicates(keys) ==> KeysDistinct(r)
  {
    forall k | k in keys ensures (k, f(k)) in r {
      var i :| 0 <= i < |keys| && keys[i] == k;
      assert r[i] == (k, f(k));
    }
  }

  /** Index of the first occurrence of `x` in `s`. */
  function FirstIndex<T(==)>(s: seq<T>, x: T): (i: nat)
    requires x in s
    ensures i < |s| && s[i] == x
    ensures forall j :: 0 <= j < i ==> s[j] != x
  {
    if s[0] == x then 0 else 1 + FirstIndex(s[1..], x)
  }

  /** Duplicate removal keeping the first occurrence of every element, in order. */
  function Dedup<T(==,!new)>(s: seq<T>): (r: seq<T>)
    ensures NoDuplicates(r)
    ensures forall x :: x in r <==> x in s
    ensures |r| <= |s|
  {
    if |s| == 0 then []
    else
      var d := Dedup(s[..|s| - 1]);
      if s[|s| - 1] in d then d else d + [s[|s| - 1]]
  }

  lemma FirstIndexOfPrefix<T>(s: seq<T>, n: nat, x: T)
    requires n <= |s| && x in s[..n]
    ensures x in s && FirstIndex(s, x) == FirstIndex(s[..n], x)
  {
    var i := FirstIndex(s[..n], x);
    assert s[i] == x;
    assert forall j :: 0 <= j < n ==> s[..n][j] == s[j];
  }

  /** Dedup lists the distinct elements by increasing position of first occurrence. */
  lemma {:induction false} DedupInFirstOccurrenceOrder<T(!new)>(s: seq<T>)
    ensures forall i, j :: 0 <= i < j < |Dedup(s)| ==>
              Dedup(s)[i] in s && Dedup(s)[j] in s && FirstIndex(s, Dedup(s)[i]) < FirstIndex(s, Dedup(s)[j])
  {
    if |s| > 0 {
      var n := |s| - 1;
      var p := s[..n];
      DedupInFirstOccurrenceOrder(p);
      var dp := Dedup(p);
      var d := Dedup(s);
      assert d == dp || d == dp + [s[n]];
      forall i, j | 0 <= i < j < |d|
        ensures d[i] in s && d[j] in s && FirstIndex(s, d[i]) < FirstIndex(s, d[j])
      {
        assert d[i] == dp[i] && d[i] in p;
        FirstIndexOfPrefix(s, n, d[i]);
        if j < |dp| {
          assert d[j] == dp[j] && d[j] in p;
          assert FirstIndex(p, dp[i]) < FirstIndex(p, dp[j]);
          FirstIndexOfPrefix(s, n, d[j]);
        } else {
          assert d[j] == s[n] && s[n] !in p;
          assert forall k :: 0 <= k < n ==> s[k] == p[k];
          assert FirstIndex(s, d[i]) < n == FirstIndex(s, d[j]);
        }
      }
    } else {
      assert Dedup(s) == [];
    }
  }

  /** A sequence without duplicates is left unchanged by Dedup. */
  lemma {:induction false} DedupOfDistinct<T(!new)>(s: seq<T>)
    requires NoDuplicates(s)
    ensures Dedup(s) == s
  {
    if |s| > 0 {
      var n := |s| - 1;
      DedupOfDistinct(s[..n]);
      assert s[n] !in s[..n];
      assert s[..n] + [s[n]] == s;
    }
  }

  /** The number of distinct elements of `s`. */
  lemma DistinctCount<T(!new)>(s: seq<T>)
    ensures |Dedup(s)| == |set x | x in s|
  {
    var d := Dedup(s);
    assert (set x | x in s) == (set x | x in d);
    DistinctLength(d);
  }

  lemma {:induction false} DistinctLength<T>(d: seq<T>)
    requires NoDuplicates(d)
    ensures |set x | x in d| == |d|
  {
    if |d| > 0 {
      var t := d[1..];
      DistinctLength(t);
      assert (set x | x in d) == {d[0]} + (set x | x in t);
      assert d[0] !in t;
    }
  }

  /** In a sequence without duplicates every element occurs at most once. */
  lemma {:induction false} NoDuplicatesCount<T>(s: seq<T>, x: T)
    requires NoDuplicates(s)
    ensures multiset(s)[x] <= 1
  {
    if |s| > 0 {
      NoDuplicatesCount(s[1..], x);
      assert s == [s[0]] + s[1..];
      assert s[0] !in s[1..];
    }
  }

  lemma TwoOccurrences<T>(s: seq<T>, i: nat, j: nat)
    requires i < j < |s| && s[i] == s[j]
    ensures multiset(s)[s[i]] >= 2
  {
    assert s == s[..i] + [s[i]] + s[i + 1..j] + [s[j]] + s[j + 1..];
  }

  /** A permutation of a sequence without duplicates has none either. */
  lemma PermutationNoDuplicates<T>(s: seq<T>, r: seq<T>)
    requires multiset(r) == multiset(s) && NoDuplicates(s)
    ensures NoDuplicates(r)
  {
    forall i, j | 0 <= i < j < |r| ensures r[i] != r[j] {
      if r[i] == r[j] {
        TwoOccurrences(r, i, j);
        NoDuplicatesCount(s, r[i]);
      }
    }
  }

  /** A permutation of a sequence with distinct keys has distinct keys. */
  lemma PermutationKeysDistinct<K, V>(s: seq<(K, V)>, r: seq<(K, V)>)
    requires multiset(r) == multiset(s) && KeysDistinct(s)
    ensures KeysDistinct(r)
  {
    PermutationNoDuplicates(s, r);
    forall i, j | 0 <= i < j < |r| ensures r[i].0 != r[j].0 {
      assert r[i] in multiset(s) && r[j] in multiset(s);
      var a :| 0 <= a < |s| && s[a] == r[i];
      var b :| 0 <= b < |s| && s[b] == r[j];
      assert a != b;
    }
  }

  /** The sum of the values of a sequence of (key, count) pairs. */
  function Total<K>(s: seq<(K, nat)>): nat {
    if |s| == 0 then 0 else s[0].1 + Total(s[1..])
  }

  lemma {:induction false} TotalConcat<K>(a: seq<(K, nat)>, b: seq<(K, nat)>)
    ensures Total(a + b) == Total(a) + Total(b)
  {
    if |a| > 0 {
      TotalConcat(a[1..], b);
      assert (a + b)[0] == a[0];
      assert (a + b)[1..] == a[1..] + b;
    } else {
      assert a + b == b;
    }
  }

  /** Reordering the pairs does not change their total. */
  lemma {:induction false} PermutationTotal<K>(a: seq<(K, nat)>, b: seq<(K, nat)>)
    requires multiset(a) == multiset(b)
    ensures Total(a) == Total(b)
    decreases |a|
  {
    if |a| > 0 {
      var x := a[0];
      assert x in multiset(b);
      var i :| 0 <= i < |b| && b[i] == x;
      var rest := b[..i] + b[i + 1..];
      assert b == b[..i] + [x] + b[i + 1..];
      assert a == [x] + a[1..];
      assert multiset(b) == multiset(b[..i]) + multiset{x} + multiset(b[i + 1..]);
      assert multiset(a) == multiset{x} + multiset(a[1..]);
      assert multiset(rest) == multiset(b[..i]) + multiset(b[i + 1..]);
      assert multiset(rest) == multiset(b) - multiset{x};
      assert multiset(a[1..]) == multiset(a) - multiset{x};
      PermutationTotal(a[1..], rest);
      TotalConcat(b[..i], b[i + 1..]);
      TotalConcat(b[..i] + [x], b[i + 1..]);
      TotalConcat(b[..i], [x]);
    }
  }
}
