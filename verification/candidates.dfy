/**
 * Candidate generation of `get_k_fi`: for every pair of (k-1)-itemsets at
 * positions i < j, in `itertools.combinations` order, form the sorted union
 * and keep it when it has exactly k items and is not already a candidate.
 */
module Candidates {
  import opened ItemSets

  predicate AllSorted(L: seq<Itemset>)
  {
    forall n :: 0 <= n < |L| ==> StrictlySorted(L[n])
  }

  /** `c` is the sorted union of two entries of `L` at positions p < q. */
  ghost predicate Joined(L: seq<Itemset>, c: Itemset)
  {
    exists p, q :: 0 <= p < q < |L| && c == Union(L[p], L[q])
  }

  /**
   * What the candidate list always satisfies, entry by entry as it was built:
   * each entry has k items, is a join of two entries of `L`, and was not there
   * before.
   */
  ghost predicate ValidCandidates(L: seq<Itemset>, k: nat, acc: seq<Itemset>)
    decreases |acc|
  {
    if |acc| == 0 then true
    else
      var front := acc[..|acc| - 1];
      var last := acc[|acc| - 1];
      ValidCandidates(L, k, front) && |last| == k && Joined(L, last) && last !in front
  }

  /** A valid candidate list, read as a whole: shape and origin of every entry, no repeats. */
  lemma {:induction false} ValidCandidatesMeans(L: seq<Itemset>, k: nat, acc: seq<Itemset>)
    requires ValidCandidates(L, k, acc)
    ensures forall n :: 0 <= n < |acc| ==> |acc[n]| == k && Joined(L, acc[n])
    ensures forall a, b :: 0 <= a < b < |acc| ==> acc[a] != acc[b]
    decreases |acc|
  {
    if |acc| > 0 {
      var front := acc[..|acc| - 1];
      ValidCandidatesMeans(L, k, front);
      assert forall n :: 0 <= n < |front| ==> acc[n] == front[n] && front[n] in front;
    }
  }

  /** Every size-k union of a pair before (i, j) in lexicographic order is in `acc`. */
  ghost predicate CoversBefore(L: seq<Itemset>, k: nat, i: nat, j: nat, acc: seq<Itemset>)
  {
    forall p, q :: 0 <= p < q < |L| && (p < i || (p == i && q < j)) && |Union(L[p], L[q])| == k ==>
      Union(L[p], L[q]) in acc
  }

  /**
   * The join loop from pair (i, j) on, with `acc` the candidates collected
   * from the pairs before (i, j) in lexicographic order: a union joins the
   * candidates when it has exactly k items and is not there yet.
   */
  function JoinFrom(L: seq<Itemset>, k: nat, i: nat, j: nat, acc: seq<Itemset>): seq<Itemset>
    decreases |L| - i, |L| + 1 - j
  {
    if i >= |L| then acc
    else if j >= |L| then JoinFrom(L, k, i + 1, i + 2, acc)
    else
      var t := Union(L[i], L[j]);
      JoinFrom(L, k, i, j + 1, if |t| == k && t !in acc then acc + [t] else acc)
  }

  /** The loop keeps the candidate list valid. */
  lemma {:induction false} JoinFromValid(L: seq<Itemset>, k: nat, i: nat, j: nat, acc: seq<Itemset>)
    requires i < j
    requires ValidCandidates(L, k, acc)
    ensures ValidCandidates(L, k, JoinFrom(L, k, i, j, acc))
    decreases |L| - i, |L| + 1 - j
  {
    if i < |L| {
      if j >= |L| {
        JoinFromValid(L, k, i + 1, i + 2, acc);
      } else {
        var t := Union(L[i], L[j]);
        var acc' := if |t| == k && t !in acc then acc + [t] else acc;
        PairValid(L, k, i, j, acc, acc');
        JoinFromValid(L, k, i, j + 1, acc');
      }
    }
  }

  /** Run from a pair (i, j) with i < j, the loop ends with every size-k union collected. */
  lemma {:induction false} JoinFromCovers(L: seq<Itemset>, k: nat, i: nat, j: nat, acc: seq<Itemset>)
    requires i < j
    requires CoversBefore(L, k, i, j, acc)
    ensures CoversBefore(L, k, |L|, |L| + 1, JoinFrom(L, k, i, j, acc))
    decreases |L| - i, |L| + 1 - j
  {
    if i >= |L| {
      CoversEverything(L, k, i, j, acc);
    } else if j >= |L| {
      NextRow(L, k, i, j, acc);
      JoinFromCovers(L, k, i + 1, i + 2, acc);
    } else {
      var t := Union(L[i], L[j]);
      var acc' := if |t| == k && t !in acc then acc + [t] else acc;
      PairCovers(L, k, i, j, acc, acc');
      JoinFromCovers(L, k, i, j + 1, acc');
    }
  }

  lemma CoversEverything(L: seq<Itemset>, k: nat, i: nat, j: nat, acc: seq<Itemset>)
    requires i >= |L|
    requires CoversBefore(L, k, i, j, acc)
    ensures CoversBefore(L, k, |L|, |L| + 1, acc)
  {
  }

  lemma NextRow(L: seq<Itemset>, k: nat, i: nat, j: nat, acc: seq<Itemset>)
    requires i < |L| <= j
    requires CoversBefore(L, k, i, j, acc)
    ensures CoversBefore(L, k, i + 1, i + 2, acc)
  {
  }

  lemma PairValid(L: seq<Itemset>, k: nat, i: nat, j: nat, acc: seq<Itemset>, acc': seq<Itemset>)
    requires i < j < |L|
    requires ValidCandidates(L, k, acc)
    requires acc' == var t := Union(L[i], L[j]); if |t| == k && t !in acc then acc + [t] else acc
    ensures ValidCandidates(L, k, acc')
  {
    var t := Union(L[i], L[j]);
    if |t| == k && t !in acc {
      assert Joined(L, t);
      assert acc'[..|acc|] == acc;
    }
  }

  lemma PairCovers(L: seq<Itemset>, k: nat, i: nat, j: nat, acc: seq<Itemset>, acc': seq<Itemset>)
    requires i < j < |L|
    requires CoversBefore(L, k, i, j, acc)
    requires acc' == var t := Union(L[i], L[j]); if |t| == k && t !in acc then acc + [t] else acc
    ensures CoversBefore(L, k, i, j + 1, acc')
  {
    var t := Union(L[i], L[j]);
    assert |t| == k ==> t in acc';
    assert forall x :: x in acc ==> x in acc';
    forall p, q | 0 <= p < q < |L| && (p < i || (p == i && q < j + 1)) && |Union(L[p], L[q])| == k
      ensures Union(L[p], L[q]) in acc'
    {
      if p == i && q == j {
        assert Union(L[p], L[q]) == t;
      } else {
        assert Union(L[p], L[q]) in acc;
      }
    }
  }

  /** All candidates of size k from the (k-1)-itemsets `L`. */
  function Join(L: seq<Itemset>, k: nat): seq<Itemset>
  {
    JoinFrom(L, k, 0, 1, [])
  }

  /**
   * Each candidate is sorted, has exactly k items, and is the union of two
   * entries of `L` at distinct positions; every such union of size k is
   * present; and no candidate appears twice, neither as a list nor as a set
   * of items.
   */
  lemma JoinCandidates(L: seq<Itemset>, k: nat)
    requires AllSorted(L)
    ensures forall n :: 0 <= n < |Join(L, k)| ==>
      StrictlySorted(Join(L, k)[n]) && |Join(L, k)[n]| == k && Joined(L, Join(L, k)[n])
    ensures forall p, q :: 0 <= p < q < |L| && |Union(L[p], L[q])| == k ==> Union(L[p], L[q]) in Join(L, k)
    ensures forall a, b :: 0 <= a < b < |Join(L, k)| ==> Elements(Join(L, k)[a]) != Elements(Join(L, k)[b])
    ensures |L| <= 1 ==> Join(L, k) == []
  {
    var r := Join(L, k);
    JoinFromValid(L, k, 0, 1, []);
    ValidCandidatesMeans(L, k, r);
    JoinFromCovers(L, k, 0, 1, []);
    forall n | 0 <= n < |r|
      ensures StrictlySorted(r[n])
    {
      JoinedSorted(L, r[n]);
    }
    DistinctAsSets(r);
    if |r| > 0 {
      JoinedNeedsPair(L, r[0]);
    }
  }

  /** A union of two itemsets of `L` is itself an itemset. */
  lemma JoinedSorted(L: seq<Itemset>, c: Itemset)
    requires AllSorted(L)
    requires Joined(L, c)
    ensures StrictlySorted(c)
  {
    var p, q :| 0 <= p < q < |L| && c == Union(L[p], L[q]);
    UnionIsSetUnion(L[p], L[q]);
  }

  lemma JoinedNeedsPair(L: seq<Itemset>, c: Itemset)
    requires Joined(L, c)
    ensures |L| >= 2
  {
  }

  /** Distinct ascending lists stand for distinct sets of items. */
  lemma DistinctAsSets(s: seq<Itemset>)
    requires forall n :: 0 <= n < |s| ==> StrictlySorted(s[n])
    requires forall a, b :: 0 <= a < b < |s| ==> s[a] != s[b]
    ensures forall a, b :: 0 <= a < b < |s| ==> Elements(s[a]) != Elements(s[b])
  {
    forall a, b | 0 <= a < b < |s|
      ensures Elements(s[a]) != Elements(s[b])
    {
      if Elements(s[a]) == Elements(s[b]) {
        SortedUnique(s[a], s[b]);
      }
    }
  }
}
