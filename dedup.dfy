/** `remove_duplicates` of test.py: collapse repeated strikes of one expiry
    into a single quote whose implied volatility is the mean of the
    volatilities quoted at that strike. Strikes and volatilities are exact
    reals; two strikes are the same dictionary key exactly when they are equal. */
module Dedup {
  import opened Seqs
  import opened Stats

  /** A strike column with its parallel implied-volatility column. */
  datatype Smile = Smile(strikes: seq<real>, vols: seq<real>)

  /** How many pairs `zip(strikes, implied_vols)` yields: it stops at the shorter column. */
  function Paired(strikes: seq<real>, vols: seq<real>): (n: nat)
    ensures n <= |strikes| && n <= |vols| && (n == |strikes| || n == |vols|)
  {
    if |strikes| < |vols| then |strikes| else |vols|
  }

  /** The volatilities paired with strike `k` among the first `m` pairs, in
      input order: the list that `unique_strikes[k]` holds after `m` pairs. */
  function Group(strikes: seq<real>, vols: seq<real>, m: nat, k: real): (g: seq<real>)
    requires m <= |strikes| && m <= |vols|
    ensures |g| > 0 <==> k in strikes[..m]
  {
    if m == 0 then []
    else
      assert strikes[..m] == strikes[..m - 1] + [strikes[m - 1]];
      var g := Group(strikes, vols, m - 1, k);
      if strikes[m - 1] == k then g + [vols[m - 1]] else g
  }

  /** What `remove_duplicates` returns: each distinct paired strike once, in
      order of first occurrence, with the mean of the volatilities quoted at it. */
  function Deduplicated(strikes: seq<real>, vols: seq<real>): (r: Smile)
    ensures |r.strikes| == |r.vols|
    ensures NoDups(r.strikes)
    ensures forall x :: x in r.strikes <==> x in strikes[..Paired(strikes, vols)]
  {
    var n := Paired(strikes, vols);
    var ks := Distinct(strikes[..n]);
    Smile(ks, seq(|ks|, i requires 0 <= i < |ks| => Mean(Group(strikes, vols, n, ks[i]))))
  }

  /** The dictionary after reading the first `i` pairs: its keys in
      insertion order are the distinct strikes so far, and each key maps to
      the non-empty list of the volatilities quoted at it so far. */
  ghost predicate Gathered(strikes: seq<real>, vols: seq<real>, i: nat,
                           keys: seq<real>, groups: map<real, seq<real>>)
    requires i <= |strikes| && i <= |vols|
  {
    && keys == Distinct(strikes[..i])
    && groups.Keys == (set x | x in keys)
    && (forall k :: k in groups ==> groups[k] == Group(strikes, vols, i, k))
    && (forall k :: k in groups ==> |groups[k]| > 0)
  }

  /** A strike already in the dictionary gets the next volatility appended to its list. */
  lemma GatheredAppend(strikes: seq<real>, vols: seq<real>, i: nat,
                       keys: seq<real>, groups: map<real, seq<real>>)
    requires i < |strikes| && i < |vols| && Gathered(strikes, vols, i, keys, groups)
    requires strikes[i] in groups
    ensures Gathered(strikes, vols, i + 1, keys, groups[strikes[i] := groups[strikes[i]] + [vols[i]]])
  {
    DistinctStep(strikes, i);
  }

  /** A strike not yet in the dictionary is added as its newest key, with a one-element list. */
  lemma GatheredOpen(strikes: seq<real>, vols: seq<real>, i: nat,
                     keys: seq<real>, groups: map<real, seq<real>>)
    requires i < |strikes| && i < |vols| && Gathered(strikes, vols, i, keys, groups)
    requires strikes[i] !in groups
    ensures Gathered(strikes, vols, i + 1, keys + [strikes[i]], groups[strikes[i] := [vols[i]]])
  {
    var k0, v0 := strikes[i], vols[i];
    var keys', groups' := keys + [k0], groups[k0 := [v0]];
    DistinctStep(strikes, i);
    assert k0 !in keys;
    assert keys' == Distinct(strikes[..i + 1]);
    assert (set x | x in keys') == (set x | x in keys) + {k0};
    assert Group(strikes, vols, i, k0) == [] by {
      assert k0 !in strikes[..i];
    }
    forall k | k in groups'
      ensures groups'[k] == Group(strikes, vols, i + 1, k) && |groups'[k]| > 0
    {
      if k != k0 {
        assert k in groups;
      }
    }
  }

  /** The first loop of `remove_duplicates`: fill the dictionary
      `unique_strikes`, appending each volatility to the list of its strike
      and opening a new list for a strike not seen before. The dictionary is
      held as its keys in insertion order (`keys`), which is the order Python
      dictionaries iterate in, and its key-to-list mapping (`groups`). */
  method GroupByStrike(strikes: seq<real>, impliedVols: seq<real>)
    returns (keys: seq<real>, groups: map<real, seq<real>>)
    ensures keys == Distinct(strikes[..Paired(strikes, impliedVols)])
    ensures groups.Keys == set x | x in keys
    ensures forall k :: k in groups ==> groups[k] == Group(strikes, impliedVols, Paired(strikes, impliedVols), k)
    ensures forall k :: k in groups ==> |groups[k]| > 0
  {
    keys, groups := [], map[];
    for i := 0 to Paired(strikes, impliedVols)
      invariant Gathered(strikes, impliedVols, i, keys, groups)
    {
      var strike, iv := strikes[i], impliedVols[i];
      if strike in groups {
        GatheredAppend(strikes, impliedVols, i, keys, groups);
        groups := groups[strike := groups[strike] + [iv]];
      } else {
        GatheredOpen(strikes, impliedVols, i, keys, groups);
        keys := keys + [strike];
        groups := groups[strike := [iv]];
      }
    }
  }

  /** The second loop of `remove_duplicates`: walk the dictionary in
      insertion order and emit each strike with the mean of its list. Every
      list in the dictionary holds at least one volatility. */
  method AverageGroups(keys: seq<real>, groups: map<real, seq<real>>)
    returns (averagedStrikes: seq<real>, averagedVols: seq<real>)
    requires forall t :: 0 <= t < |keys| ==> keys[t] in groups && |groups[keys[t]]| > 0
    ensures averagedStrikes == keys && |averagedVols| == |keys|
    ensures forall t :: 0 <= t < |keys| ==> averagedVols[t] == Mean(groups[keys[t]])
  {
    averagedStrikes, averagedVols := [], [];
    for j := 0 to |keys|
      invariant averagedStrikes == keys[..j]
      invariant |averagedVols| == j
      invariant forall t :: 0 <= t < j ==> averagedVols[t] == Mean(groups[keys[t]])
    {
      var ivs := groups[keys[j]];
      averagedStrikes := averagedStrikes + [keys[j]];
      averagedVols := averagedVols + [Mean(ivs)];
    }
  }

  /** The model of `remove_duplicates`: group the paired volatilities by
      strike, then average each group, in the dictionary's insertion order. */
  method RemoveDuplicates(strikes: seq<real>, impliedVols: seq<real>)
    returns (averagedStrikes: seq<real>, averagedVols: seq<real>)
    ensures Smile(averagedStrikes, averagedVols) == Deduplicated(strikes, impliedVols)
  {
    var keys, groups := GroupByStrike(strikes, impliedVols);
    forall t | 0 <= t < |keys|
      ensures keys[t] in groups && |groups[keys[t]]| > 0
    {
      var k := keys[t];
      assert k in keys && k in groups;
      assert |groups[k]| > 0;
    }
    averagedStrikes, averagedVols := AverageGroups(keys, groups);
  }

  // ---------------------------------------------------------------------
  // What the result means

  /** Gathering over the first `m` pairs reads nothing past them. */
  lemma {:induction false} GroupOfPrefix(strikes: seq<real>, vols: seq<real>, n: nat, m: nat, k: real)
    requires m <= n <= |strikes| && n <= |vols|
    ensures Group(strikes, vols, m, k) == Group(strikes[..n], vols[..n], m, k)
  {
    if m > 0 {
      GroupOfPrefix(strikes, vols, n, m - 1, k);
    }
  }

  /** Trailing entries of the longer column, which `zip` never pairs, make no difference. */
  lemma DedupIgnoresUnpairedTail(strikes: seq<real>, vols: seq<real>)
    ensures var n := Paired(strikes, vols);
      Deduplicated(strikes, vols) == Deduplicated(strikes[..n], vols[..n])
  {
    var n := Paired(strikes, vols);
    assert strikes[..n][..n] == strikes[..n];
    forall k ensures Group(strikes, vols, n, k) == Group(strikes[..n], vols[..n], n, k) {
      GroupOfPrefix(strikes, vols, n, n, k);
    }
  }

  /** Both returned columns have one entry per distinct paired input strike. */
  lemma DedupLengths(strikes: seq<real>, vols: seq<real>)
    ensures var r := Deduplicated(strikes, vols);
      |r.strikes| == |r.vols| == |set x | x in strikes[..Paired(strikes, vols)]|
  {
    DistinctCardinality(strikes[..Paired(strikes, vols)]);
  }

  /** Returned strikes come in the order of their first occurrence in the input. */
  lemma DedupFirstOccurrenceOrder(strikes: seq<real>, vols: seq<real>)
    ensures var r := Deduplicated(strikes, vols); var s := strikes[..Paired(strikes, vols)];
      forall i, j :: 0 <= i < j < |r.strikes| ==> FirstIndex(s, r.strikes[i]) < FirstIndex(s, r.strikes[j])
  {
    DistinctKeepsFirstOccurrenceOrder(strikes[..Paired(strikes, vols)]);
  }

  /** Number of the first `m` strikes equal to `k`. */
  function CountAt(strikes: seq<real>, m: nat, k: real): nat
    requires m <= |strikes|
  {
    if m == 0 then 0 else CountAt(strikes, m - 1, k) + (if strikes[m - 1] == k then 1 else 0)
  }

  /** Sum of the volatilities paired with `k` among the first `m` pairs. */
  function SumAt(strikes: seq<real>, vols: seq<real>, m: nat, k: real): real
    requires m <= |strikes| && m <= |vols|
  {
    if m == 0 then 0.0 else SumAt(strikes, vols, m - 1, k) + (if strikes[m - 1] == k then vols[m - 1] else 0.0)
  }

  /** The list gathered for `k` has one entry per pair quoted at `k` and adds
      up to those pairs' volatilities. */
  lemma {:induction false} GroupCountsAndSums(strikes: seq<real>, vols: seq<real>, m: nat, k: real)
    requires m <= |strikes| && m <= |vols|
    ensures var g := Group(strikes, vols, m, k);
      |g| == CountAt(strikes, m, k) && Sum(g) == SumAt(strikes, vols, m, k)
  {
    if m > 0 {
      GroupCountsAndSums(strikes, vols, m - 1, k);
      var g := Group(strikes, vols, m - 1, k);
      if strikes[m - 1] == k {
        assert (g + [vols[m - 1]])[..|g|] == g;
      }
    }
  }

  /** Each returned volatility is the arithmetic mean of every input
      volatility quoted at its strike: their sum divided by their number. */
  lemma DedupAveragesEachStrike(strikes: seq<real>, vols: seq<real>, t: nat)
    requires t < |Deduplicated(strikes, vols).strikes|
    ensures var r := Deduplicated(strikes, vols); var n := Paired(strikes, vols);
      CountAt(strikes, n, r.strikes[t]) > 0 &&
      r.vols[t] == SumAt(strikes, vols, n, r.strikes[t]) / (CountAt(strikes, n, r.strikes[t]) as real)
  {
    var n := Paired(strikes, vols);
    var r := Deduplicated(strikes, vols);
    var k := r.strikes[t];
    var g := Group(strikes, vols, n, k);
    assert r.vols[t] == Mean(g);
    GroupCountsAndSums(strikes, vols, n, k);
    MeanIsRatio(g, SumAt(strikes, vols, n, k), CountAt(strikes, n, k));
  }

  /** The list gathered for `k` holds only volatilities from the first `m`
      pairs, so bounds on those volatilities bound it. */
  lemma {:induction false} GroupWithin(strikes: seq<real>, vols: seq<real>, m: nat, k: real, lo: real, hi: real)
    requires m <= |strikes| && m <= |vols| && Within(vols[..m], lo, hi)
    ensures forall x :: x in Group(strikes, vols, m, k) ==> x in vols[..m]
    ensures Within(Group(strikes, vols, m, k), lo, hi)
  {
    if m > 0 {
      assert vols[..m - 1] == vols[..m][..m - 1];
      GroupWithin(strikes, vols, m - 1, k, lo, hi);
      assert vols[..m][m - 1] == vols[m - 1];
    }
  }

  /** Averaging stays within the observed range: if every paired input
      volatility lies in [lo, hi], so does every returned one (in particular
      non-negative volatilities stay non-negative). */
  lemma DedupVolsWithinObserved(strikes: seq<real>, vols: seq<real>, lo: real, hi: real)
    requires Within(vols[..Paired(strikes, vols)], lo, hi)
    ensures Within(Deduplicated(strikes, vols).vols, lo, hi)
  {
    var n := Paired(strikes, vols);
    var r := Deduplicated(strikes, vols);
    forall t | 0 <= t < |r.vols|
      ensures lo <= r.vols[t] <= hi
    {
      var g := Group(strikes, vols, n, r.strikes[t]);
      GroupWithin(strikes, vols, n, r.strikes[t], lo, hi);
      MeanWithin(g, lo, hi);
    }
  }

  /** A strike quoted once among the first `m` pairs gathers exactly its one volatility. */
  lemma {:induction false} GroupOfUniqueStrike(strikes: seq<real>, vols: seq<real>, m: nat, t: nat)
    requires t < m <= |strikes| && m <= |vols|
    requires forall u :: 0 <= u < m && u != t ==> strikes[u] != strikes[t]
    ensures Group(strikes, vols, m, strikes[t]) == [vols[t]]
  {
    if t == m - 1 {
      assert strikes[t] !in strikes[..m - 1];
    } else {
      GroupOfUniqueStrike(strikes, vols, m - 1, t);
    }
  }

  /** Input whose paired strikes are already distinct comes back unchanged. */
  lemma DedupOfDistinctStrikes(strikes: seq<real>, vols: seq<real>)
    requires NoDups(strikes[..Paired(strikes, vols)])
    ensures var n := Paired(strikes, vols);
      Deduplicated(strikes, vols) == Smile(strikes[..n], vols[..n])
  {
    var n := Paired(strikes, vols);
    DistinctOfNoDups(strikes[..n]);
    var r := Deduplicated(strikes, vols);
    forall t | 0 <= t < n
      ensures r.vols[t] == vols[t]
    {
      forall u | 0 <= u < n && u != t ensures strikes[u] != strikes[t] {
        assert strikes[..n][u] != strikes[..n][t];
      }
      GroupOfUniqueStrike(strikes, vols, n, t);
      MeanOfOne(vols[t]);
    }
  }

  /** Removing duplicates a second time changes nothing. */
  lemma DedupIdempotent(strikes: seq<real>, vols: seq<real>)
    ensures var r := Deduplicated(strikes, vols); Deduplicated(r.strikes, r.vols) == r
  {
    var r := Deduplicated(strikes, vols);
    assert r.strikes[..|r.strikes|] == r.strikes;
    assert r.vols[..|r.vols|] == r.vols;
    DedupOfDistinctStrikes(r.strikes, r.vols);
  }

  /** A worked example, strike 95 quoted twice and the other strikes once:
      its strikes, each kept once. */
  lemma ExampleStrikes()
    ensures Distinct([90.0, 95.0, 95.0, 100.0]) == [90.0, 95.0, 100.0]
  {
    assert [90.0, 95.0, 95.0, 100.0][..3] == [90.0, 95.0, 95.0];
    assert [90.0, 95.0, 95.0][..2] == [90.0, 95.0];
    assert [90.0, 95.0][..1] == [90.0];
    assert [90.0][..0] == [];
  }

  /** In the worked example, the list the dictionary gathers for strike 90, quoted once. */
  lemma ExampleGroup90()
    ensures Group([90.0, 95.0, 95.0, 100.0], [0.22, 0.20, 0.24, 0.18], 4, 90.0) == [0.22]
  {
  }

  /** In the worked example, the list the dictionary gathers for strike 95, quoted twice. */
  lemma ExampleGroup95()
    ensures Group([90.0, 95.0, 95.0, 100.0], [0.22, 0.20, 0.24, 0.18], 4, 95.0) == [0.20, 0.24]
  {
  }

  /** In the worked example, the list the dictionary gathers for strike 100, quoted once. */
  lemma ExampleGroup100()
    ensures Group([90.0, 95.0, 95.0, 100.0], [0.22, 0.20, 0.24, 0.18], 4, 100.0) == [0.18]
  {
  }

  /** The two volatilities quoted at strike 95 average to 0.22. */
  lemma ExampleMean95()
    ensures Mean([0.20, 0.24]) == 0.22
  {
    assert [0.20, 0.24][..1] == [0.20];
    assert [0.20][..0] == [];
    MeanIsRatio([0.20, 0.24], 0.44, 2);
  }

  /** A sequence of three values is the display of its elements. */
  lemma ThreeElements<T>(s: seq<T>)
    requires |s| == 3
    ensures s == [s[0], s[1], s[2]]
  {
  }

  /** A worked example: strike 95 quoted twice, the other strikes once.
      Strikes [90, 95, 95, 100] with vols [0.22, 0.20, 0.24, 0.18] give
      [90, 95, 100] with [0.22, 0.22, 0.18]. */
  lemma DedupExample(strikes: seq<real>, vols: seq<real>)
    requires strikes == [90.0, 95.0, 95.0, 100.0] && vols == [0.22, 0.20, 0.24, 0.18]
    ensures Deduplicated(strikes, vols) == Smile([90.0, 95.0, 100.0], [0.22, 0.22, 0.18])
  {
    var n := Paired(strikes, vols);
    assert n == 4 && strikes[..n] == strikes;
    ExampleStrikes();
    var ks := Distinct(strikes[..n]);
    assert ks == [90.0, 95.0, 100.0];
    ExampleGroup90();
    ExampleGroup95();
    ExampleGroup100();
    MeanOfOne(0.22);
    ExampleMean95();
    MeanOfOne(0.18);
    var r := Deduplicated(strikes, vols);
    assert r.strikes == ks && |r.vols| == 3;
    assert r.vols[0] == 0.22 && r.vols[1] == 0.22 && r.vols[2] == 0.18;
    ThreeElements(r.vols);
  }
}
