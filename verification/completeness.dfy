/**
 * The Apriori completeness of the whole run: every itemset of two or more
 * items over `0..max` whose support reaches the degree is reported at the
 * level of its size, with its support. Two frequent (k-1)-subsets of a
 * frequent k-itemset (drop the last item, drop the first) are reported one
 * level below by induction, and their join is the itemset itself.
 */
module Completeness {
  import opened ItemSets
  import opened Counting
  import opened Candidates
  import opened Apriori

  // ---------------------------------------------------------------------------
  // Reading a chain of levels
  // ---------------------------------------------------------------------------

  /** Every level of a chain is sorted, so the next level of any of them is defined. */
  lemma {:induction false} ChainSorted(ts: seq<Transaction>, degree: int, prev: seq<Frequent>, k: nat,
                                       levels: seq<seq<Frequent>>, n: nat)
    requires Chain(ts, degree, prev, k, levels)
    requires n < |levels|
    ensures AllSorted(ItemsOf(levels[n]))
    decreases |levels|
  {
    if n > 0 {
      ChainSorted(ts, degree, levels[0], k + 1, levels[1..], n - 1);
    }
  }

  /** A chain goes on past level n whenever the next level of level n is not empty. */
  lemma {:induction false} ChainGoesOn(ts: seq<Transaction>, degree: int, prev: seq<Frequent>, k: nat,
                                       levels: seq<seq<Frequent>>, n: nat)
    requires Chain(ts, degree, prev, k, levels)
    requires n < |levels|
    requires AllSorted(ItemsOf(levels[n]))
    requires NextLevel(ts, degree, levels[n], k + n + 1) != []
    ensures n + 1 < |levels|
    ensures levels[n + 1] == NextLevel(ts, degree, levels[n], k + n + 1)
    decreases |levels|
  {
    if n > 0 {
      ChainGoesOn(ts, degree, levels[0], k + 1, levels[1..], n - 1);
    }
  }

  /** A chain starts with the next level of its starting level unless that one is empty. */
  lemma ChainStart(ts: seq<Transaction>, degree: int, prev: seq<Frequent>, k: nat, levels: seq<seq<Frequent>>)
    requires Chain(ts, degree, prev, k, levels)
    ensures AllSorted(ItemsOf(prev))
    ensures NextLevel(ts, degree, prev, k) != [] ==> |levels| > 0 && levels[0] == NextLevel(ts, degree, prev, k)
  {
  }

  // ---------------------------------------------------------------------------
  // Joining two subsets back into the itemset
  // ---------------------------------------------------------------------------

  /** The merge of two sorted itemsets whose items together are those of a sorted `x` is `x`. */
  lemma UnionOfParts(a: Itemset, b: Itemset, x: Itemset)
    requires StrictlySorted(a) && StrictlySorted(b) && StrictlySorted(x)
    requires Elements(a) + Elements(b) == Elements(x)
    ensures Union(a, b) == x
  {
    UnionIsSetUnion(a, b);
    SortedUnique(Union(a, b), x);
  }

  lemma PositionOf(L: seq<Frequent>, f: Frequent) returns (p: nat)
    requires f in L
    ensures p < |L| && L[p] == f
  {
    p :| 0 <= p < |L| && L[p] == f;
  }

  lemma PositionOfItems(L: seq<Frequent>, c: Itemset) returns (p: nat)
    requires c in ItemsOf(L)
    ensures p < |L| && L[p].items == c
  {
    var i :| 0 <= i < |ItemsOf(L)| && ItemsOf(L)[i] == c;
    p := i;
  }

  /**
   * When two distinct entries of a level together hold exactly the items of
   * a sorted, frequent k-itemset `x`, the next level reports `x` with its
   * support, whichever of the two comes first.
   */
  lemma JoinedBack(ts: seq<Transaction>, degree: int, L: seq<Frequent>, k: nat, p: nat, q: nat, x: Itemset)
    requires AllSorted(ItemsOf(L))
    requires p < |L| && q < |L| && p != q
    requires StrictlySorted(x) && |x| == k && Support(ts, x) >= degree
    requires StrictlySorted(L[p].items) && StrictlySorted(L[q].items)
    requires Elements(L[p].items) + Elements(L[q].items) == Elements(x)
    ensures Frequent(x, Support(ts, x)) in NextLevel(ts, degree, L, k)
  {
    UnionOfParts(L[p].items, L[q].items, x);
    UnionOfParts(L[q].items, L[p].items, x);
    NextLevelComplete(ts, degree, L, k);
    if p < q {
      assert Union(L[p].items, L[q].items) == x;
    } else {
      assert Union(L[q].items, L[p].items) == x;
    }
  }

  /** A sorted pair is the join of its two singletons. */
  lemma PairParts(x: Itemset)
    requires StrictlySorted(x) && |x| == 2
    ensures Elements([x[0]]) + Elements([x[1]]) == Elements(x)
    ensures x[0] != x[1]
  {
    assert x == [x[0]] + [x[1]];
  }

  /** Dropping the last item and dropping the first item give two distinct sorted parts that cover `x`. */
  lemma EndParts(x: Itemset)
    requires StrictlySorted(x) && |x| >= 2
    ensures StrictlySorted(x[..|x| - 1]) && StrictlySorted(x[1..])
    ensures x[..|x| - 1] != x[1..]
    ensures Elements(x[..|x| - 1]) + Elements(x[1..]) == Elements(x)
    ensures Elements(x[..|x| - 1]) <= Elements(x) && Elements(x[1..]) <= Elements(x)
  {
    assert x[..|x| - 1][0] == x[0];
    assert x[1..][0] == x[1];
    assert x == x[..|x| - 1] + [x[|x| - 1]];
    assert x == [x[0]] + x[1..];
  }

  // ---------------------------------------------------------------------------
  // Induction on the size of the itemset
  // ---------------------------------------------------------------------------

  /** Level 1 holds the singleton of every item of `x`. */
  ghost predicate HasSingletons(ones: seq<Frequent>, x: Itemset)
  {
    forall i :: i in x ==> [i] in ItemsOf(ones)
  }

  /** A frequent pair whose singletons are both at level 1 is reported at level 2. */
  lemma PairReported(ts: seq<Transaction>, degree: int, ones: seq<Frequent>, rest: seq<seq<Frequent>>, x: Itemset)
    requires Chain(ts, degree, ones, 2, rest)
    requires HasSingletons(ones, x)
    requires StrictlySorted(x) && |x| == 2 && Support(ts, x) >= degree
    ensures 0 < |rest| && Frequent(x, Support(ts, x)) in rest[0]
  {
    assert x[0] in x && x[1] in x;
    var p := PositionOfItems(ones, [x[0]]);
    var q := PositionOfItems(ones, [x[1]]);
    PairParts(x);
    ChainStart(ts, degree, ones, 2, rest);
    JoinedBack(ts, degree, ones, 2, p, q, x);
  }

  /** When both end parts of `x` are reported one level below, `x` is reported at its own level. */
  lemma GrowReported(ts: seq<Transaction>, degree: int, ones: seq<Frequent>, rest: seq<seq<Frequent>>, x: Itemset)
    requires Chain(ts, degree, ones, 2, rest)
    requires StrictlySorted(x) && |x| >= 3 && Support(ts, x) >= degree
    requires |x| - 3 < |rest|
    requires Frequent(x[..|x| - 1], Support(ts, x[..|x| - 1])) in rest[|x| - 3]
    requires Frequent(x[1..], Support(ts, x[1..])) in rest[|x| - 3]
    ensures |x| - 2 < |rest| && Frequent(x, Support(ts, x)) in rest[|x| - 2]
  {
    var front, back := x[..|x| - 1], x[1..];
    var n := |x| - 3;
    var L := rest[n];
    ChainSorted(ts, degree, ones, 2, rest, n);
    assert Frequent(x, Support(ts, x)) in NextLevel(ts, degree, L, |x|) by {
      var p := PositionOf(L, Frequent(front, Support(ts, front)));
      var q := PositionOf(L, Frequent(back, Support(ts, back)));
      EndParts(x);
      JoinedBack(ts, degree, L, |x|, p, q, x);
    }
    ChainGoesOn(ts, degree, ones, 2, rest, n);
  }

  /** The end parts of a frequent itemset are frequent and keep their singletons at level 1. */
  lemma EndPartsFrequent(ts: seq<Transaction>, degree: int, ones: seq<Frequent>, x: Itemset)
    requires StrictlySorted(x) && |x| >= 3 && Support(ts, x) >= degree
    requires HasSingletons(ones, x)
    ensures StrictlySorted(x[..|x| - 1]) && Support(ts, x[..|x| - 1]) >= degree
    ensures HasSingletons(ones, x[..|x| - 1])
    ensures StrictlySorted(x[1..]) && Support(ts, x[1..]) >= degree
    ensures HasSingletons(ones, x[1..])
  {
    EndParts(x);
    SupportAntiMonotone(ts, x[..|x| - 1], x);
    SupportAntiMonotone(ts, x[1..], x);
    forall i | i in x[..|x| - 1]
      ensures [i] in ItemsOf(ones)
    {
      assert i in Elements(x);
    }
    forall i | i in x[1..]
      ensures [i] in ItemsOf(ones)
    {
      assert i in Elements(x);
    }
  }

  /** From a level 1 holding the singletons of `x`, a frequent `x` is reported at level |x|. */
  lemma {:induction false} ChainComplete(ts: seq<Transaction>, degree: int, ones: seq<Frequent>,
                                         rest: seq<seq<Frequent>>, x: Itemset)
    requires Chain(ts, degree, ones, 2, rest)
    requires HasSingletons(ones, x)
    requires StrictlySorted(x) && |x| >= 2 && Support(ts, x) >= degree
    ensures |x| - 2 < |rest| && Frequent(x, Support(ts, x)) in rest[|x| - 2]
    decreases |x|
  {
    if |x| == 2 {
      PairReported(ts, degree, ones, rest, x);
    } else {
      EndPartsFrequent(ts, degree, ones, x);
      ChainComplete(ts, degree, ones, rest, x[..|x| - 1]);
      ChainComplete(ts, degree, ones, rest, x[1..]);
      GrowReported(ts, degree, ones, rest, x);
    }
  }

  // ---------------------------------------------------------------------------
  // The whole run
  // ---------------------------------------------------------------------------

  /**
   * Level 1 holds the singleton of every item up to the largest one that
   * belongs to an itemset reaching the degree: its count is at least its
   * support, which is at least the itemset's.
   */
  lemma OnesHoldSingletons(ts: seq<Transaction>, degree: int, m: Item, x: Itemset)
    requires MaxItem(ts) == Some(m)
    requires Support(ts, x) >= degree
    requires forall i :: i in x ==> i <= m
    ensures HasSingletons(FrequentOnes(ts, degree, m), x)
  {
    var ones := FrequentOnes(ts, degree, m);
    forall a | a in x
      ensures [a] in ItemsOf(ones)
    {
      assert Elements([a]) <= Elements(x);
      SupportAntiMonotone(ts, [a], x);
      OccurrencesBoundSupport(ts, a);
      var p := PositionOf(ones, Frequent([a], Occurrences(ts, a)));
      assert ItemsOf(ones)[p] == [a];
    }
  }

  /**
   * `get_frequent_items` finds every frequent itemset: each sorted itemset of
   * two or more items over `0..max` whose support reaches the degree is
   * reported at level |x| with its support. The bound on the items matters
   * only for a degree of at most 0, where itemsets of items above the
   * largest one count as frequent but can never be joined.
   */
  lemma GetFrequentItemsComplete(ts: seq<Transaction>, degree: int, x: Itemset)
    requires StrictlySorted(x) && |x| >= 2 && Support(ts, x) >= degree
    requires forall i :: i in x ==> MaxItem(ts).Some? && i <= MaxItem(ts).value
    ensures GetFrequentItems(ts, degree).Mined?
    ensures |x| - 1 < |GetFrequentItems(ts, degree).levels|
    ensures Frequent(x, Support(ts, x)) in GetFrequentItems(ts, degree).levels[|x| - 1]
  {
    assert x[0] in x;
    var r := GetFrequentItems(ts, degree);
    OnesHoldSingletons(ts, degree, MaxItem(ts).value, x);
    ChainComplete(ts, degree, r.levels[0], r.levels[1..], x);
  }
}
