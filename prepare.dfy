/** The preparation at the top of `compute_rnd` in test.py: de-duplicate the
    quotes, compute the permutation that sorts the strikes (`np.argsort`),
    and reorder both columns by that one permutation. */
module Prepare {
  import opened Seqs
  import opened Dedup

  /** Every entry of `p` is a valid index into a column of length `n`. */
  ghost predicate InRange(p: seq<nat>, n: nat) {
    forall i :: 0 <= i < |p| ==> p[i] < n
  }

  /** Reading `keys` through `p` gives a non-decreasing sequence. */
  ghost predicate SortedBy(keys: seq<real>, p: seq<nat>)
    requires InRange(p, |keys|)
  {
    forall i, j :: 0 <= i < j < |p| ==> keys[p[i]] <= keys[p[j]]
  }

  /** Place index `j` into the index list `p` before the first index whose key exceeds `keys[j]`. */
  function Insert(keys: seq<real>, p: seq<nat>, j: nat): (r: seq<nat>)
    requires j < |keys| && InRange(p, |keys|)
    ensures |r| == |p| + 1 && InRange(r, |keys|)
    ensures forall x :: x in r <==> x in p || x == j
  {
    if p == [] then [j]
    else if keys[j] < keys[p[0]] then [j] + p
    else [p[0]] + Insert(keys, p[1..], j)
  }

  /** The indices `0 .. m - 1`, ordered by their keys. */
  function SortPrefix(keys: seq<real>, m: nat): (p: seq<nat>)
    requires m <= |keys|
    ensures |p| == m && InRange(p, |keys|)
    ensures forall x: nat :: x in p <==> x < m
  {
    if m == 0 then [] else Insert(keys, SortPrefix(keys, m - 1), m - 1)
  }

  /** `np.argsort(keys)`: the permutation of the indices of `keys` that sorts it. */
  function ArgSort(keys: seq<real>): (p: seq<nat>)
    ensures |p| == |keys| && InRange(p, |keys|)
    ensures forall x: nat :: x in p <==> x < |keys|
  {
    SortPrefix(keys, |keys|)
  }

  /** `s[p]` on numpy arrays: the entries of `s` at the positions listed in `p`. */
  function Reindex(s: seq<real>, p: seq<nat>): (r: seq<real>)
    requires InRange(p, |s|)
    ensures |r| == |p| && forall x :: x in r ==> x in s
  {
    seq(|p|, i requires 0 <= i < |p| => s[p[i]])
  }

  /** The strike and volatility columns `compute_rnd` goes on to interpolate. */
  function Prepared(strikes: seq<real>, vols: seq<real>): (r: Smile)
    ensures |r.strikes| == |r.vols|
    ensures StrictlyIncreasing(r.strikes)
    ensures forall x :: x in r.strikes <==> x in strikes[..Paired(strikes, vols)]
  {
    var d := Deduplicated(strikes, vols);
    var p := ArgSort(d.strikes);
    ArgSortSortsPermutation(d.strikes);
    ReindexSortedDistinct(d.strikes, p);
    ReindexSameValues(d.strikes, p);
    Smile(Reindex(d.strikes, p), Reindex(d.vols, p))
  }

  // ---------------------------------------------------------------------
  // The sorting permutation

  /** Inserting into a sorted index list keeps it sorted. */
  lemma {:induction false} InsertSorted(keys: seq<real>, p: seq<nat>, j: nat)
    requires j < |keys| && InRange(p, |keys|) && SortedBy(keys, p)
    ensures SortedBy(keys, Insert(keys, p, j))
  {
    if p != [] && keys[p[0]] <= keys[j] {
      var tail := p[1..];
      InsertSorted(keys, tail, j);
      var r := Insert(keys, p, j);
      var rt := Insert(keys, tail, j);
      assert r == [p[0]] + rt;
      forall i, k | 0 <= i < k < |r|
        ensures keys[r[i]] <= keys[r[k]]
      {
        if i == 0 {
          assert r[k] in rt;
          assert r[k] in tail || r[k] == j;
        }
      }
    }
  }

  /** Inserting an index not yet present keeps the indices distinct. */
  lemma {:induction false} InsertNoDups(keys: seq<real>, p: seq<nat>, j: nat)
    requires j < |keys| && InRange(p, |keys|) && NoDups(p) && j !in p
    ensures NoDups(Insert(keys, p, j))
  {
    if p != [] && keys[p[0]] <= keys[j] {
      var tail := p[1..];
      assert NoDups(tail) by {
        forall i, k | 0 <= i < k < |tail| ensures tail[i] != tail[k] {
          assert tail[i] == p[i + 1] && tail[k] == p[k + 1];
        }
      }
      InsertNoDups(keys, tail, j);
      var r := Insert(keys, p, j);
      var rt := Insert(keys, tail, j);
      assert r == [p[0]] + rt;
      forall i, k | 0 <= i < k < |r|
        ensures r[i] != r[k]
      {
        if i == 0 {
          assert r[k] in rt;
          assert p[0] !in tail;
        }
      }
    }
  }

  /** Sorting a prefix lists each of its indices once, in key order. */
  lemma {:induction false} SortPrefixSortsAndIsDistinct(keys: seq<real>, m: nat)
    requires m <= |keys|
    ensures NoDups(SortPrefix(keys, m)) && SortedBy(keys, SortPrefix(keys, m))
  {
    if m > 0 {
      SortPrefixSortsAndIsDistinct(keys, m - 1);
      InsertNoDups(keys, SortPrefix(keys, m - 1), m - 1);
      InsertSorted(keys, SortPrefix(keys, m - 1), m - 1);
    }
  }

  /** `ArgSort` is a permutation of the indices (each once, none missing)
      that reads `keys` in non-decreasing order. */
  lemma ArgSortSortsPermutation(keys: seq<real>)
    ensures var p := ArgSort(keys);
      |p| == |keys| && NoDups(p) && (forall x: nat :: x in p <==> x < |keys|) &&
      SortedBy(keys, p)
  {
    SortPrefixSortsAndIsDistinct(keys, |keys|);
  }

  // ---------------------------------------------------------------------
  // What the prepared columns mean

  /** Reading distinct values through a permutation that sorts them gives
      a strictly increasing sequence. */
  lemma ReindexSortedDistinct(s: seq<real>, p: seq<nat>)
    requires InRange(p, |s|) && NoDups(s) && NoDups(p) && SortedBy(s, p)
    ensures StrictlyIncreasing(Reindex(s, p))
  {
    var r := Reindex(s, p);
    forall i, j | 0 <= i < j < |r| ensures r[i] < r[j] {
      assert p[i] != p[j];
      assert s[p[i]] != s[p[j]];
    }
  }

  /** Reading `s` through a permutation of its indices keeps the same values. */
  lemma ReindexSameValues(s: seq<real>, p: seq<nat>)
    requires InRange(p, |s|) && forall x: nat :: x in p <==> x < |s|
    ensures forall x :: x in Reindex(s, p) <==> x in s
  {
    var r := Reindex(s, p);
    forall x | x in s ensures x in r {
      var u :| 0 <= u < |s| && s[u] == x;
      assert u in p;
      var i :| 0 <= i < |p| && p[i] == u;
      assert r[i] == x;
    }
  }

  /** Both prepared columns have one entry per distinct paired input strike. */
  lemma PreparedLengths(strikes: seq<real>, vols: seq<real>)
    ensures var r := Prepared(strikes, vols);
      |r.strikes| == |r.vols| == |set x | x in strikes[..Paired(strikes, vols)]|
  {
    DedupLengths(strikes, vols);
  }

  /** The (strike, volatility) pairs that two parallel columns hold. */
  ghost function Pairs(s: seq<real>, v: seq<real>): set<(real, real)> {
    set u | 0 <= u < |s| && u < |v| :: (s[u], v[u])
  }

  /** Reading two parallel columns through one permutation keeps every
      pair together, and keeps all of them. */
  lemma ReindexKeepsPairs(s: seq<real>, v: seq<real>, p: seq<nat>)
    requires |s| == |v| && InRange(p, |s|) && forall x: nat :: x in p <==> x < |s|
    ensures Pairs(Reindex(s, p), Reindex(v, p)) == Pairs(s, v)
  {
    var rs, rv := Reindex(s, p), Reindex(v, p);
    forall q | q in Pairs(rs, rv) ensures q in Pairs(s, v) {
      var t :| 0 <= t < |rs| && t < |rv| && q == (rs[t], rv[t]);
      var u := p[t];
      assert q == (s[u], v[u]);
    }
    forall q | q in Pairs(s, v) ensures q in Pairs(rs, rv) {
      var u :| 0 <= u < |s| && u < |v| && q == (s[u], v[u]);
      assert u in p;
      var t :| 0 <= t < |p| && p[t] == u;
      assert q == (rs[t], rv[t]);
    }
  }

  /** Sorting moves whole pairs: the prepared columns hold exactly the
      (strike, volatility) pairs `remove_duplicates` returned. */
  lemma PreparedKeepsPairs(strikes: seq<real>, vols: seq<real>)
    ensures var d := Deduplicated(strikes, vols);
      Pairs(Prepared(strikes, vols).strikes, Prepared(strikes, vols).vols) == Pairs(d.strikes, d.vols)
  {
    var d := Deduplicated(strikes, vols);
    ReindexKeepsPairs(d.strikes, d.vols, ArgSort(d.strikes));
  }

  /** Each prepared volatility is the mean of every input volatility quoted
      at its strike: sorting never separates a volatility from its strike. */
  lemma PreparedAveragesEachStrike(strikes: seq<real>, vols: seq<real>, t: nat)
    requires t < |Prepared(strikes, vols).strikes|
    ensures var r := Prepared(strikes, vols); var n := Paired(strikes, vols);
      CountAt(strikes, n, r.strikes[t]) > 0 &&
      r.vols[t] == SumAt(strikes, vols, n, r.strikes[t]) / (CountAt(strikes, n, r.strikes[t]) as real)
  {
    var d := Deduplicated(strikes, vols);
    var u := ArgSort(d.strikes)[t];
    DedupAveragesEachStrike(strikes, vols, u);
  }

  /** The prepared strikes are the only strictly increasing listing of the
      paired input strikes, so neither the order `remove_duplicates` emits
      nor how `np.argsort` breaks ties can change them. */
  lemma PreparedStrikesDetermined(strikes: seq<real>, vols: seq<real>, sorted: seq<real>)
    requires StrictlyIncreasing(sorted)
    requires forall x :: x in sorted <==> x in strikes[..Paired(strikes, vols)]
    ensures Prepared(strikes, vols).strikes == sorted
  {
    StrictlyIncreasingUnique(Prepared(strikes, vols).strikes, sorted);
  }

  /** Quotes given out of order, strike 95 twice, come out as the sorted
      strikes [90, 95, 100]. */
  lemma PreparedExample(strikes: seq<real>, vols: seq<real>)
    requires strikes == [100.0, 95.0, 90.0, 95.0] && vols == [0.18, 0.20, 0.22, 0.24]
    ensures Prepared(strikes, vols).strikes == [90.0, 95.0, 100.0]
  {
    var n := Paired(strikes, vols);
    assert n == 4 && strikes[..n] == strikes;
    var sorted := [90.0, 95.0, 100.0];
    assert forall x :: x in sorted <==> x in strikes[..n];
    PreparedStrikesDetermined(strikes, vols, sorted);
  }
}
