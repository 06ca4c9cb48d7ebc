/**
 * The `Apriori` miner: level 1 (`get_1_fi`), one level step and the
 * level-widening recursion (`get_k_fi`), and their composition
 * (`get_frequent_items`). The transaction store and the minimum support
 * degree are parameters; the per-level results are returned instead of
 * being written to a file.
 */
module Apriori {
  import opened ItemSets
  import opened Counting
  import opened Filtering
  import opened Candidates

  // ---------------------------------------------------------------------------
  // Level 1
  // ---------------------------------------------------------------------------

  /** The largest item of one non-empty transaction. */
  function MaxOf(line: Transaction): (m: Item)
    requires |line| > 0
    ensures m in line
    ensures forall x :: x in line ==> x <= m
  {
    if |line| == 1 then line[0]
    else
      var m := MaxOf(line[1..]);
      assert line == [line[0]] + line[1..];
      if line[0] >= m then line[0] else m
  }

  /**
   * The largest item of the store, which sizes the level-1 counting array;
   * `None` when no transaction holds an item, where the source's maximum over
   * an empty array fails.
   */
  function MaxItem(ts: seq<Transaction>): (m: Option<Item>)
    ensures m.None? <==> forall t :: 0 <= t < |ts| ==> |ts[t]| == 0
    ensures m.Some? ==> exists t :: 0 <= t < |ts| && m.value in ts[t]
    ensures m.Some? ==> forall t, x :: 0 <= t < |ts| && x in ts[t] ==> x <= m.value
  {
    if |ts| == 0 then None
    else
      var front := ts[..|ts| - 1];
      var last := ts[|ts| - 1];
      assert forall t :: 0 <= t < |front| ==> front[t] == ts[t];
      var rest := MaxItem(front);
      if |last| == 0 then rest
      else
        var m := MaxOf(last);
        match rest
        case None => Some(m)
        case Some(r) => Some(if m >= r then m else r)
  }

  /** The counting array `[0] * size`. */
  function Zeros(size: nat): seq<nat>
  {
    seq(size, _ => 0)
  }

  /** The level-1 keys `{i: e}` seen as the one-item itemsets [0], [1], …, [size - 1]. */
  function Singletons(size: nat): seq<Itemset>
  {
    seq(size, i => [i])
  }

  /**
   * `get_1_fi`: count every item occurrence into an array of size `m + 1`,
   * where `m` is the largest item, then keep, in ascending item order, every
   * item whose count reaches the degree.
   */
  function FrequentOnes(ts: seq<Transaction>, degree: int, m: Item): (r: seq<Frequent>)
    requires MaxItem(ts) == Some(m)
    ensures forall n :: 0 <= n < |r| ==>
      && |r[n].items| == 1
      && r[n].items[0] <= m
      && r[n].support == Occurrences(ts, r[n].items[0])
      && r[n].support >= degree
    ensures forall a, b :: 0 <= a < b < |r| ==> r[a].items[0] < r[b].items[0]
    ensures forall i :: 0 <= i <= m && Occurrences(ts, i) >= degree ==> Frequent([i], Occurrences(ts, i)) in r
  {
    var arr := Tally(Zeros(m + 1), ts);
    var r := KeepFrequent(Singletons(m + 1), arr, degree);
    OnesKept(ts, degree, m, arr, r);
    r
  }

  /** The level-1 filter over the occurrence counts of the items `0..m`. */
  lemma OnesKept(ts: seq<Transaction>, degree: int, m: Item, arr: seq<nat>, r: seq<Frequent>)
    requires |arr| == m + 1
    requires forall i :: 0 <= i <= m ==> arr[i] == Occurrences(ts, i)
    requires r == KeepFrequent(Singletons(m + 1), arr, degree)
    ensures forall n :: 0 <= n < |r| ==>
      && |r[n].items| == 1
      && r[n].items[0] <= m
      && r[n].support == Occurrences(ts, r[n].items[0])
      && r[n].support >= degree
    ensures forall a, b :: 0 <= a < b < |r| ==> r[a].items[0] < r[b].items[0]
    ensures forall i :: 0 <= i <= m && Occurrences(ts, i) >= degree ==> Frequent([i], Occurrences(ts, i)) in r
  {
    var keys := Singletons(m + 1);
    var idx := Kept(arr, degree);
    KeptPositions(arr, degree);
    KeepFrequentPicksKept(keys, arr, degree);
    KeepFrequentExactly(keys, arr, degree);
    forall n | 0 <= n < |r|
      ensures r[n].items == [idx[n]] && r[n].support == arr[idx[n]]
    {
    }
    forall i | 0 <= i <= m && Occurrences(ts, i) >= degree
      ensures Frequent([i], Occurrences(ts, i)) in r
    {
      assert keys[i] == [i] && arr[i] == Occurrences(ts, i);
    }
  }

  // ---------------------------------------------------------------------------
  // Level k >= 2
  // ---------------------------------------------------------------------------

  /** The itemsets of a level without their counts (the source's `fi_k_l`). */
  function ItemsOf(level: seq<Frequent>): seq<Itemset>
  {
    seq(|level|, n requires 0 <= n < |level| => level[n].items)
  }

  /**
   * What every reported level k >= 2 satisfies: each itemset is sorted, has k
   * items, carries its subset-scan support and reaches the degree; no itemset
   * is reported twice.
   */
  ghost predicate FrequentLevel(ts: seq<Transaction>, degree: int, level: seq<Frequent>, k: nat)
  {
    && (forall n :: 0 <= n < |level| ==> FrequentEntry(ts, degree, level[n], k))
    && (forall a, b :: 0 <= a < b < |level| ==> Elements(level[a].items) != Elements(level[b].items))
  }

  /** One reported itemset of width k: sorted, k items, its subset-scan support, at least the degree. */
  ghost predicate FrequentEntry(ts: seq<Transaction>, degree: int, f: Frequent, k: nat)
  {
    && StrictlySorted(f.items)
    && |f.items| == k
    && f.support == Support(ts, f.items)
    && f.support >= degree
  }

  /** The itemsets of a level are sorted, have k items, and use only items up to `bound`. */
  ghost predicate Bounded(level: seq<Frequent>, k: nat, bound: nat)
  {
    forall n :: 0 <= n < |level| ==>
      && StrictlySorted(level[n].items)
      && |level[n].items| == k
      && (forall x :: x in level[n].items ==> x <= bound)
  }

  /**
   * One pass of `get_k_fi`: join the (k-1)-itemsets of `prev`, count every
   * candidate over the store, and keep those whose count reaches the degree.
   * The result is a level of frequent k-itemsets; with fewer than two
   * itemsets in `prev` no pair can be joined and it is empty.
   */
  function NextLevel(ts: seq<Transaction>, degree: int, prev: seq<Frequent>, k: nat): (next: seq<Frequent>)
    requires AllSorted(ItemsOf(prev))
    ensures FrequentLevel(ts, degree, next, k)
    ensures |prev| <= 1 ==> next == []
  {
    var cands := Join(ItemsOf(prev), k);
    var counts := Supports(ts, cands);
    var next := KeepFrequent(cands, counts, degree);
    KeptEntries(ts, degree, prev, k, cands, counts, next);
    next
  }

  /** Every itemset of the next level is the union of two itemsets of `prev` at positions p < q. */
  lemma NextLevelJoined(ts: seq<Transaction>, degree: int, prev: seq<Frequent>, k: nat)
    requires AllSorted(ItemsOf(prev))
    ensures forall n :: 0 <= n < |NextLevel(ts, degree, prev, k)| ==>
      Joined(ItemsOf(prev), NextLevel(ts, degree, prev, k)[n].items)
  {
    var cands := Join(ItemsOf(prev), k);
    var counts := Supports(ts, cands);
    KeptEntries(ts, degree, prev, k, cands, counts, KeepFrequent(cands, counts, degree));
  }

  /**
   * Every union of two itemsets of `prev` that has exactly k items and
   * reaches the degree is in the next level, with its support.
   */
  lemma NextLevelComplete(ts: seq<Transaction>, degree: int, prev: seq<Frequent>, k: nat)
    requires AllSorted(ItemsOf(prev))
    ensures forall p, q ::
              && 0 <= p < q < |prev|
              && |Union(prev[p].items, prev[q].items)| == k
              && Support(ts, Union(prev[p].items, prev[q].items)) >= degree
              ==> Frequent(Union(prev[p].items, prev[q].items), Support(ts, Union(prev[p].items, prev[q].items)))
                    in NextLevel(ts, degree, prev, k)
  {
    var cands := Join(ItemsOf(prev), k);
    var counts := Supports(ts, cands);
    KeptComplete(ts, degree, prev, k, cands, counts, KeepFrequent(cands, counts, degree));
  }

  /** Each kept entry is a candidate at a kept position, so it inherits the candidates' guarantees. */
  lemma KeptEntries(ts: seq<Transaction>, degree: int, prev: seq<Frequent>, k: nat,
                    cands: seq<Itemset>, counts: seq<nat>, next: seq<Frequent>)
    requires AllSorted(ItemsOf(prev))
    requires cands == Join(ItemsOf(prev), k)
    requires counts == Supports(ts, cands)
    requires next == KeepFrequent(cands, counts, degree)
    ensures FrequentLevel(ts, degree, next, k)
    ensures forall n :: 0 <= n < |next| ==> Joined(ItemsOf(prev), next[n].items)
    ensures |prev| <= 1 ==> next == []
  {
    JoinCandidates(ItemsOf(prev), k);
    KeepFrequentPicksKept(cands, counts, degree);
    KeptEach(ts, degree, ItemsOf(prev), k, cands, counts, next);
    KeptDistinct(cands, counts, degree, next);
  }

  /** Per entry: a kept candidate keeps its shape and origin, and its count is its support. */
  lemma KeptEach(ts: seq<Transaction>, degree: int, L: seq<Itemset>, k: nat,
                 cands: seq<Itemset>, counts: seq<nat>, next: seq<Frequent>)
    requires AllSorted(L)
    requires forall n :: 0 <= n < |cands| ==> StrictlySorted(cands[n]) && |cands[n]| == k && Joined(L, cands[n])
    requires |counts| == |cands|
    requires forall n :: 0 <= n < |cands| ==> counts[n] == Support(ts, cands[n])
    requires |next| == |Kept(counts, degree)|
    requires forall n :: 0 <= n < |next| ==>
      && Kept(counts, degree)[n] < |cands|
      && next[n] == Frequent(cands[Kept(counts, degree)[n]], counts[Kept(counts, degree)[n]])
    ensures forall n :: 0 <= n < |next| ==>
      && StrictlySorted(next[n].items)
      && |next[n].items| == k
      && Joined(L, next[n].items)
      && next[n].support == Support(ts, next[n].items)
      && next[n].support >= degree
  {
    var idx := Kept(counts, degree);
    KeptPositions(counts, degree);
    forall n | 0 <= n < |next|
      ensures next[n].items == cands[idx[n]] && next[n].support == counts[idx[n]]
    {
    }
  }

  /** Kept entries sit at increasing candidate positions, so distinct candidates stay distinct. */
  lemma KeptDistinct(cands: seq<Itemset>, counts: seq<nat>, degree: int, next: seq<Frequent>)
    requires |counts| == |cands|
    requires forall a, b :: 0 <= a < b < |cands| ==> Elements(cands[a]) != Elements(cands[b])
    requires |next| == |Kept(counts, degree)|
    requires forall n :: 0 <= n < |next| ==>
      && Kept(counts, degree)[n] < |cands|
      && next[n] == Frequent(cands[Kept(counts, degree)[n]], counts[Kept(counts, degree)[n]])
    ensures forall a, b :: 0 <= a < b < |next| ==> Elements(next[a].items) != Elements(next[b].items)
  {
    var idx := Kept(counts, degree);
    KeptPositions(counts, degree);
    forall a, b | 0 <= a < b < |next|
      ensures Elements(next[a].items) != Elements(next[b].items)
    {
      assert idx[a] < idx[b];
      assert next[a].items == cands[idx[a]] && next[b].items == cands[idx[b]];
    }
  }

  /** Every size-k union of two entries of `prev` that reaches the degree is kept, with its support. */
  lemma KeptComplete(ts: seq<Transaction>, degree: int, prev: seq<Frequent>, k: nat,
                     cands: seq<Itemset>, counts: seq<nat>, next: seq<Frequent>)
    requires AllSorted(ItemsOf(prev))
    requires cands == Join(ItemsOf(prev), k)
    requires counts == Supports(ts, cands)
    requires next == KeepFrequent(cands, counts, degree)
    ensures forall p, q ::
              && 0 <= p < q < |prev|
              && |Union(prev[p].items, prev[q].items)| == k
              && Support(ts, Union(prev[p].items, prev[q].items)) >= degree
              ==> Frequent(Union(prev[p].items, prev[q].items), Support(ts, Union(prev[p].items, prev[q].items))) in next
  {
    var L := ItemsOf(prev);
    assert |L| == |prev| && |counts| == |cands|;
    forall p, q | 0 <= p < q < |prev| && |Union(prev[p].items, prev[q].items)| == k
      && Support(ts, Union(prev[p].items, prev[q].items)) >= degree
      ensures Frequent(Union(prev[p].items, prev[q].items), Support(ts, Union(prev[p].items, prev[q].items))) in next
    {
      assert L[p] == prev[p].items && L[q] == prev[q].items;
      var u := Union(L[p], L[q]);
      assert u in cands by {
        JoinCandidates(L, k);
      }
      var i :| 0 <= i < |cands| && cands[i] == u;
      assert counts[i] == Support(ts, cands[i]);
      assert Frequent(cands[i], counts[i]) in next by {
        KeepFrequentExactly(cands, counts, degree);
      }
    }
  }

  /** The items of a joined itemset come from the itemsets it was joined from. */
  lemma JoinedBounded(L: seq<Itemset>, c: Itemset, bound: nat)
    requires AllSorted(L)
    requires Joined(L, c)
    requires forall n, x :: 0 <= n < |L| && x in L[n] ==> x <= bound
    ensures forall x :: x in c ==> x <= bound
  {
    var p, q :| 0 <= p < q < |L| && c == Union(L[p], L[q]);
    UnionIsSetUnion(L[p], L[q]);
    forall x | x in c
      ensures x <= bound
    {
      assert x in Elements(c);
      assert x in Elements(L[p]) || x in Elements(L[q]);
    }
  }

  /** A level built from items up to `bound` again uses only items up to `bound`. */
  lemma NextLevelBounded(ts: seq<Transaction>, degree: int, prev: seq<Frequent>, k: nat, bound: nat)
    requires k >= 1
    requires Bounded(prev, k - 1, bound)
    ensures AllSorted(ItemsOf(prev))
    ensures Bounded(NextLevel(ts, degree, prev, k), k, bound)
  {
    var L := ItemsOf(prev);
    assert forall n, x :: 0 <= n < |L| && x in L[n] ==> x <= bound by {
      forall n, x | 0 <= n < |L| && x in L[n]
        ensures x <= bound
      {
        assert L[n] == prev[n].items;
      }
    }
    var next := NextLevel(ts, degree, prev, k);
    NextLevelJoined(ts, degree, prev, k);
    forall n | 0 <= n < |next|
      ensures forall x :: x in next[n].items ==> x <= bound
    {
      JoinedBounded(L, next[n].items, bound);
    }
  }

  /**
   * When the run may go on at width k: k is between 2 and `bound` + 2 and
   * `prev` is a sorted level of (k-1)-itemsets over items up to `bound`.
   */
  ghost predicate Ready(prev: seq<Frequent>, k: nat, bound: nat)
  {
    2 <= k <= bound + 2 && Bounded(prev, k - 1, bound)
  }

  /**
   * `get_k_fi` from level k on, given the (k-1)-level `prev`: the run stops
   * with no level-k result when `prev` has exactly one itemset or when the
   * filtered level k is empty; otherwise level k is reported and mining goes
   * on at k + 1 from it. `bound` is the largest item, which bounds how wide
   * an itemset can grow.
   */
  function Mine(ts: seq<Transaction>, degree: int, bound: nat, prev: seq<Frequent>, k: nat): (levels: seq<seq<Frequent>>)
    requires Ready(prev, k, bound)
    decreases bound + 2 - k
  {
    Advance(ts, degree, bound, prev, k);
    if |prev| == 1 then []
    else
      var next := NextLevel(ts, degree, prev, k);
      if |next| == 0 then []
      else [next] + Mine(ts, degree, bound, next, k + 1)
  }

  /**
   * One step of the run keeps its precondition: the next level again uses
   * only items up to `bound`, and a non-empty level of k-itemsets over
   * `0..bound` has k <= bound + 1, so the width stays within range.
   */
  lemma Advance(ts: seq<Transaction>, degree: int, bound: nat, prev: seq<Frequent>, k: nat)
    requires Ready(prev, k, bound)
    ensures AllSorted(ItemsOf(prev))
    ensures |NextLevel(ts, degree, prev, k)| > 0 ==> Ready(NextLevel(ts, degree, prev, k), k + 1, bound)
  {
    NextLevelBounded(ts, degree, prev, k, bound);
    var next := NextLevel(ts, degree, prev, k);
    if |next| > 0 {
      SortedLengthBound(next[0].items, bound);
    }
  }

  /**
   * The two stopping rules of `get_k_fi` and the rule to go on: mining stops
   * at once when `prev` has at most one itemset, stops when the filtered
   * level k is empty, and otherwise reports level k and continues at k + 1
   * from it.
   */
  lemma MineSteps(ts: seq<Transaction>, degree: int, bound: nat, prev: seq<Frequent>, k: nat)
    requires Ready(prev, k, bound)
    ensures AllSorted(ItemsOf(prev))
    ensures |prev| <= 1 ==> Mine(ts, degree, bound, prev, k) == []
    ensures |prev| > 1 ==> (Mine(ts, degree, bound, prev, k) == [] <==> NextLevel(ts, degree, prev, k) == [])
    ensures Mine(ts, degree, bound, prev, k) != [] ==>
      && Ready(NextLevel(ts, degree, prev, k), k + 1, bound)
      && Mine(ts, degree, bound, prev, k)
         == [NextLevel(ts, degree, prev, k)] + Mine(ts, degree, bound, NextLevel(ts, degree, prev, k), k + 1)
  {
    Advance(ts, degree, bound, prev, k);
  }

  /**
   * What the run from level k reports: nothing when `prev` has at most one
   * itemset; otherwise its first level is the next level of `prev`; every
   * reported level is a non-empty frequent level of its width, and every
   * level but the last has at least two itemsets.
   */
  lemma {:induction false} MineReports(ts: seq<Transaction>, degree: int, bound: nat, prev: seq<Frequent>, k: nat,
                                       levels: seq<seq<Frequent>>)
    requires Ready(prev, k, bound)
    requires levels == Mine(ts, degree, bound, prev, k)
    ensures |prev| <= 1 ==> levels == []
    ensures levels != [] ==> levels[0] == NextLevel(ts, degree, prev, k)
    ensures Reported(ts, degree, levels, k)
    decreases bound + 2 - k
  {
    Advance(ts, degree, bound, prev, k);
    var next := NextLevel(ts, degree, prev, k);
    if |prev| != 1 && |next| > 0 {
      var rest := Mine(ts, degree, bound, next, k + 1);
      MineReports(ts, degree, bound, next, k + 1, rest);
      PrependLevel(ts, degree, next, rest, k);
    }
  }

  /**
   * What a run of levels from k on guarantees: every level is non-empty and
   * is a frequent level of its width, and every level but the last has at
   * least two itemsets (a single itemset cannot be joined).
   */
  ghost predicate Reported(ts: seq<Transaction>, degree: int, levels: seq<seq<Frequent>>, k: nat)
  {
    && (forall n :: 0 <= n < |levels| ==> |levels[n]| > 0 && FrequentLevel(ts, degree, levels[n], k + n))
    && (forall n :: 0 <= n < |levels| - 1 ==> |levels[n]| >= 2)
  }

  /** Putting a level k in front of the levels from k + 1 on keeps every level's guarantees. */
  lemma PrependLevel(ts: seq<Transaction>, degree: int, next: seq<Frequent>, rest: seq<seq<Frequent>>, k: nat)
    requires |next| > 0 && FrequentLevel(ts, degree, next, k)
    requires Reported(ts, degree, rest, k + 1)
    requires rest != [] ==> |next| >= 2
    ensures Reported(ts, degree, [next] + rest, k)
  {
    var levels := [next] + rest;
    forall n | 1 <= n < |levels|
      ensures levels[n] == rest[n - 1]
    {
    }
  }

  /**
   * The levels from k on are the chain of next levels started at `prev`:
   * each is the non-empty next level of the one before it, and the chain
   * ends exactly where the next level would be empty.
   */
  ghost predicate Chain(ts: seq<Transaction>, degree: int, prev: seq<Frequent>, k: nat, levels: seq<seq<Frequent>>)
    decreases |levels|
  {
    && AllSorted(ItemsOf(prev))
    && if |levels| == 0 then NextLevel(ts, degree, prev, k) == []
       else
         && |levels[0]| > 0
         && levels[0] == NextLevel(ts, degree, prev, k)
         && Chain(ts, degree, levels[0], k + 1, levels[1..])
  }

  /**
   * The run from level k is exactly the chain of next levels starting at
   * `prev`: no level is skipped or altered, and mining stops only once the
   * next level is empty.
   */
  lemma {:induction false} MineChain(ts: seq<Transaction>, degree: int, bound: nat, prev: seq<Frequent>, k: nat,
                                     levels: seq<seq<Frequent>>)
    requires Ready(prev, k, bound)
    requires levels == Mine(ts, degree, bound, prev, k)
    ensures Chain(ts, degree, prev, k, levels)
    decreases bound + 2 - k
  {
    Advance(ts, degree, bound, prev, k);
    var next := NextLevel(ts, degree, prev, k);
    if |prev| != 1 && |next| > 0 {
      var rest := Mine(ts, degree, bound, next, k + 1);
      MineChain(ts, degree, bound, next, k + 1, rest);
      assert levels[1..] == rest;
    }
  }

  /** A chain is determined by where it starts: two chains from the same level are equal. */
  lemma {:induction false} ChainUnique(ts: seq<Transaction>, degree: int, prev: seq<Frequent>, k: nat,
                                       a: seq<seq<Frequent>>, b: seq<seq<Frequent>>)
    requires Chain(ts, degree, prev, k, a)
    requires Chain(ts, degree, prev, k, b)
    ensures a == b
    decreases |a|
  {
    if |a| > 0 && |b| > 0 {
      ChainUnique(ts, degree, a[0], k + 1, a[1..], b[1..]);
      assert a == [a[0]] + a[1..] && b == [b[0]] + b[1..];
    }
  }

  /** Along a chain, each level is the next level of the one before it. */
  lemma {:induction false} ChainLinks(ts: seq<Transaction>, degree: int, prev: seq<Frequent>, k: nat,
                                      levels: seq<seq<Frequent>>)
    requires Chain(ts, degree, prev, k, levels)
    ensures forall n :: 0 <= n < |levels| - 1 ==>
      AllSorted(ItemsOf(levels[n])) && levels[n + 1] == NextLevel(ts, degree, levels[n], k + n + 1)
    decreases |levels|
  {
    if |levels| > 1 {
      var rest := levels[1..];
      ChainLinks(ts, degree, levels[0], k + 1, rest);
      forall n | 1 <= n < |levels| - 1
        ensures levels[n] == rest[n - 1] && levels[n + 1] == rest[n]
      {
      }
    }
  }

  // ---------------------------------------------------------------------------
  // The whole run
  // ---------------------------------------------------------------------------

  /** The result of `get_frequent_items`: per-level results from level 1 on, or the empty-store failure. */
  datatype Outcome = Mined(levels: seq<seq<Frequent>>) | NoItems

  /**
   * `get_frequent_items`: level 1, then `get_k_fi` from k = 2. Level 1 is
   * always the first entry (possibly empty); each later entry is a non-empty
   * level k of frequent k-itemsets with their subset-scan supports; a level
   * follows only one that had at least two itemsets. Each level from 2 on is
   * the next level of the one before it, and the run stops only when the
   * next level of the last one is empty.
   */
  function GetFrequentItems(ts: seq<Transaction>, degree: int): (r: Outcome)
    ensures r.NoItems? <==> forall t :: 0 <= t < |ts| ==> |ts[t]| == 0
    ensures r.Mined? ==> MaxItem(ts).Some? && |r.levels| >= 1
    ensures r.Mined? ==> r.levels[0] == FrequentOnes(ts, degree, MaxItem(ts).value)
    ensures r.Mined? ==> forall n :: 1 <= n < |r.levels| ==>
      |r.levels[n]| > 0 && FrequentLevel(ts, degree, r.levels[n], n + 1)
    ensures r.Mined? ==> forall n :: 0 <= n < |r.levels| - 1 ==> |r.levels[n]| >= 2
    ensures r.Mined? ==> Chain(ts, degree, r.levels[0], 2, r.levels[1..])
  {
    match MaxItem(ts)
    case None => NoItems
    case Some(m) =>
      var ones := FrequentOnes(ts, degree, m);
      FrequentOnesBounded(ts, degree, m);
      var rest := Mine(ts, degree, m, ones, 2);
      MineReports(ts, degree, m, ones, 2, rest);
      RunLevels(ts, degree, ones, rest);
      MineChain(ts, degree, m, ones, 2, rest);
      assert ([ones] + rest)[1..] == rest;
      Mined([ones] + rest)
  }

  /** A run whose level 1 joins to an empty level 2 reports level 1 alone. */
  lemma SingleLevelRun(ts: seq<Transaction>, degree: int, ones: seq<Frequent>)
    requires GetFrequentItems(ts, degree).Mined?
    requires GetFrequentItems(ts, degree).levels[0] == ones
    requires AllSorted(ItemsOf(ones)) && NextLevel(ts, degree, ones, 2) == []
    ensures GetFrequentItems(ts, degree) == Mined([ones])
  {
    var r := GetFrequentItems(ts, degree);
    assert r.levels == [r.levels[0]] + r.levels[1..];
  }

  lemma FrequentOnesBounded(ts: seq<Transaction>, degree: int, m: Item)
    requires MaxItem(ts) == Some(m)
    ensures Bounded(FrequentOnes(ts, degree, m), 1, m)
  {
    var r := FrequentOnes(ts, degree, m);
    forall n | 0 <= n < |r|
      ensures StrictlySorted(r[n].items) && forall x :: x in r[n].items ==> x <= m
    {
      assert r[n].items == [r[n].items[0]];
    }
  }

  /** Level 1 followed by the levels from 2 on. */
  lemma RunLevels(ts: seq<Transaction>, degree: int, ones: seq<Frequent>, rest: seq<seq<Frequent>>)
    requires Reported(ts, degree, rest, 2)
    requires |ones| <= 1 ==> rest == []
    ensures forall n :: 1 <= n < |[ones] + rest| ==>
      |([ones] + rest)[n]| > 0 && FrequentLevel(ts, degree, ([ones] + rest)[n], n + 1)
    ensures forall n :: 0 <= n < |[ones] + rest| - 1 ==> |([ones] + rest)[n]| >= 2
  {
    var levels := [ones] + rest;
    forall n | 1 <= n < |levels|
      ensures levels[n] == rest[n - 1]
    {
    }
  }

  // ---------------------------------------------------------------------------
  // The Apriori property of the join
  // ---------------------------------------------------------------------------

  /**
   * A candidate's support never exceeds the recorded count of either itemset
   * it was joined from, provided each recorded count is at least that
   * itemset's subset-scan support (true at level 1, where repeats are counted,
   * and with equality at every later level).
   */
  lemma CandidateSupportBound(ts: seq<Transaction>, prev: seq<Frequent>, p: nat, q: nat)
    requires AllSorted(ItemsOf(prev))
    requires forall n :: 0 <= n < |prev| ==> Support(ts, prev[n].items) <= prev[n].support
    requires p < q < |prev|
    ensures Support(ts, Union(prev[p].items, prev[q].items)) <= prev[p].support
    ensures Support(ts, Union(prev[p].items, prev[q].items)) <= prev[q].support
  {
    var u := Union(prev[p].items, prev[q].items);
    assert ItemsOf(prev)[p] == prev[p].items && ItemsOf(prev)[q] == prev[q].items;
    UnionIsSetUnion(prev[p].items, prev[q].items);
    SupportAntiMonotone(ts, prev[p].items, u);
    SupportAntiMonotone(ts, prev[q].items, u);
  }

  /** Level-1 counts are never below the subset-scan support of the singleton. */
  lemma FrequentOnesCountAtLeastSupport(ts: seq<Transaction>, degree: int, m: Item)
    requires MaxItem(ts) == Some(m)
    ensures forall n :: 0 <= n < |FrequentOnes(ts, degree, m)| ==>
      Support(ts, FrequentOnes(ts, degree, m)[n].items) <= FrequentOnes(ts, degree, m)[n].support
  {
    var r := FrequentOnes(ts, degree, m);
    forall n | 0 <= n < |r|
      ensures Support(ts, r[n].items) <= r[n].support
    {
      var i := r[n].items[0];
      assert r[n].items == [i];
      OccurrencesBoundSupport(ts, i);
    }
  }

  /**
   * Every itemset of the next level has a support no greater than the counts
   * of the two itemsets of `prev` whose union it is.
   */
  lemma NextLevelApriori(ts: seq<Transaction>, degree: int, prev: seq<Frequent>, k: nat)
    requires AllSorted(ItemsOf(prev))
    requires forall n :: 0 <= n < |prev| ==> Support(ts, prev[n].items) <= prev[n].support
    ensures forall n :: 0 <= n < |NextLevel(ts, degree, prev, k)| ==>
      exists p, q ::
        && 0 <= p < q < |prev|
        && NextLevel(ts, degree, prev, k)[n].items == Union(prev[p].items, prev[q].items)
        && NextLevel(ts, degree, prev, k)[n].support <= prev[p].support
        && NextLevel(ts, degree, prev, k)[n].support <= prev[q].support
  {
    var L := ItemsOf(prev);
    var next := NextLevel(ts, degree, prev, k);
    NextLevelJoined(ts, degree, prev, k);
    forall n | 0 <= n < |next|
      ensures exists p, q ::
        && 0 <= p < q < |prev|
        && next[n].items == Union(prev[p].items, prev[q].items)
        && next[n].support <= prev[p].support
        && next[n].support <= prev[q].support
    {
      assert Joined(L, next[n].items);
      var p, q :| 0 <= p < q < |L| && next[n].items == Union(L[p], L[q]);
      assert L[p] == prev[p].items && L[q] == prev[q].items;
      CandidateSupportBound(ts, prev, p, q);
      assert next[n].items == Union(prev[p].items, prev[q].items);
    }
  }
}
