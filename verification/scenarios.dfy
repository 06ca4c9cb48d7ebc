/** Worked examples of a whole mining run. */
module Scenarios {
  import opened ItemSets
  import opened Counting
  import opened Filtering
  import opened Candidates
  import opened Apriori

  lemma SingleItemCounts(arr: seq<nat>)
    requires arr == Tally(Zeros(6), [[5]])
    ensures |arr| == 6
    ensures forall i :: 0 <= i < 6 ==> (arr[i] >= 1 <==> i == 5)
    ensures arr[5] == 1
  {
    var ts: seq<Transaction> := [[5]];
    assert ts[..0] == [];
    forall i | 0 <= i < 6
      ensures arr[i] == multiset([5])[i]
    {
      assert Occurrences(ts, i) == Occurrences([], i) + multiset([5])[i];
    }
  }

  lemma {:induction false} KeptNone(counts: seq<nat>, degree: int)
    requires forall j :: 0 <= j < |counts| ==> counts[j] < degree
    ensures Kept(counts, degree) == []
    decreases |counts|
  {
    if |counts| > 0 {
      KeptNone(counts[..|counts| - 1], degree);
    }
  }

  lemma {:induction false} KeptOnly(counts: seq<nat>, degree: int, i: nat)
    requires i < |counts|
    requires forall j :: 0 <= j < |counts| ==> (counts[j] >= degree <==> j == i)
    ensures Kept(counts, degree) == [i]
    decreases |counts|
  {
    var last := |counts| - 1;
    if last == i {
      KeptNone(counts[..last], degree);
    } else {
      KeptOnly(counts[..last], degree, i);
    }
  }

  /** A single transaction {5} at degree 1: the largest item is 5 and level 1 is {5: 1}. */
  lemma SingleItemLevelOne()
    ensures MaxItem([[5]]) == Some(5)
    ensures FrequentOnes([[5]], 1, 5) == [Frequent([5], 1)]
  {
    assert MaxItem([[5]]) == Some(5);
    var arr := Tally(Zeros(6), [[5]]);
    SingleItemCounts(arr);
    KeptOnly(arr, 1, 5);
    var r := KeepFrequent(Singletons(6), arr, 1);
    KeepFrequentPicksKept(Singletons(6), arr, 1);
    assert |r| == 1 && r[0] == Frequent(Singletons(6)[5], arr[5]);
    assert r == [Frequent([5], 1)];
  }

  /** A single transaction {5} at degree 1: level 1 is {5: 1} and level 2 is never attempted. */
  lemma SingleItemStore()
    ensures GetFrequentItems([[5]], 1) == Mined([[Frequent([5], 1)]])
  {
    var ts: seq<Transaction> := [[5]];
    SingleItemLevelOne();
    var ones := FrequentOnes(ts, 1, 5);
    FrequentOnesBounded(ts, 1, 5);
    MineSteps(ts, 1, 5, ones, 2);
  }

  /** Two transactions {1, 2}: items 1 and 2 occur twice each, item 0 never. */
  lemma PairCounts(arr: seq<nat>)
    requires arr == Tally(Zeros(3), [[1, 2], [1, 2]])
    ensures arr == [0, 2, 2]
  {
    var ts: seq<Transaction> := [[1, 2], [1, 2]];
    assert ts[..1] == [[1, 2]];
    assert ts[..1][..0] == [];
    forall i | 0 <= i < 3
      ensures arr[i] == 2 * multiset([1, 2])[i]
    {
      assert Occurrences(ts, i) == Occurrences(ts[..1], i) + multiset([1, 2])[i];
      assert Occurrences(ts[..1], i) == Occurrences([], i) + multiset([1, 2])[i];
    }
  }

  lemma PairKept()
    ensures Kept([0, 2, 2], 2) == [1, 2]
  {
    var c: seq<nat> := [0, 2, 2];
    assert c[..2] == [0, 2] && c[..2][..1] == [0] && c[..2][..1][..0] == [];
    assert Kept([0], 2) == [];
    assert Kept([0, 2], 2) == [1];
  }

  lemma PairMax()
    ensures MaxItem([[1, 2], [1, 2]]) == Some(2)
  {
    var ts: seq<Transaction> := [[1, 2], [1, 2]];
    assert ts[..1] == [[1, 2]] && ts[..1][..0] == [];
    assert MaxOf([1, 2]) == 2 by {
      assert [1, 2][1..] == [2];
    }
  }

  lemma PairFilter()
    ensures KeepFrequent(Singletons(3), [0, 2, 2], 2) == [Frequent([1], 2), Frequent([2], 2)]
  {
    var arr: seq<nat> := [0, 2, 2];
    var r := KeepFrequent(Singletons(3), arr, 2);
    PairKept();
    KeepFrequentPicksKept(Singletons(3), arr, 2);
    assert r[0] == Frequent(Singletons(3)[1], arr[1]);
    assert r[1] == Frequent(Singletons(3)[2], arr[2]);
  }

  /** Two transactions {1, 2} at degree 2: the largest item is 2 and level 1 is {1: 2, 2: 2}. */
  lemma PairLevelOne()
    ensures MaxItem([[1, 2], [1, 2]]) == Some(2)
    ensures FrequentOnes([[1, 2], [1, 2]], 2, 2) == [Frequent([1], 2), Frequent([2], 2)]
  {
    PairMax();
    PairCounts(Tally(Zeros(3), [[1, 2], [1, 2]]));
    PairFilter();
  }

  lemma PairJoin()
    ensures Join([[1], [2]], 2) == [[1, 2]]
  {
    var L: seq<Itemset> := [[1], [2]];
    assert Union([1], [2]) == [1] + Union([], [2]) == [1, 2];
    assert JoinFrom(L, 2, 1, 2, [[1, 2]]) == [[1, 2]];
    assert JoinFrom(L, 2, 0, 2, [[1, 2]]) == [[1, 2]];
  }

  lemma PairSupport()
    ensures Supports([[1, 2], [1, 2]], [[1, 2]]) == [2]
  {
    var ts: seq<Transaction> := [[1, 2], [1, 2]];
    assert Contains([1, 2], [1, 2]);
    assert ts[..1] == [[1, 2]] && ts[..1][..0] == [];
    assert Support(ts, [1, 2]) == 2;
  }

  /** From level 1 = {1: 2, 2: 2} the only candidate is (1, 2), held by both transactions. */
  lemma PairLevelTwo()
    ensures AllSorted(ItemsOf([Frequent([1], 2), Frequent([2], 2)]))
    ensures NextLevel([[1, 2], [1, 2]], 2, [Frequent([1], 2), Frequent([2], 2)], 2) == [Frequent([1, 2], 2)]
  {
    var ones := [Frequent([1], 2), Frequent([2], 2)];
    assert ItemsOf(ones) == [[1], [2]];
    PairJoin();
    PairSupport();
    assert KeepFrequent([[1, 2]], [2], 2) == [Frequent([1, 2], 2)];
  }

  /**
   * Two transactions {1, 2} at degree 2: from level 1 = {1: 2, 2: 2} the run
   * finds level 2 = {(1, 2): 2} and stops there, a single 2-itemset being left.
   */
  lemma PairMine()
    ensures Ready([Frequent([1], 2), Frequent([2], 2)], 2, 2)
    ensures Mine([[1, 2], [1, 2]], 2, 2, [Frequent([1], 2), Frequent([2], 2)], 2) == [[Frequent([1, 2], 2)]]
  {
    var ts: seq<Transaction> := [[1, 2], [1, 2]];
    var ones := [Frequent([1], 2), Frequent([2], 2)];
    assert Ready(ones, 2, 2);
    PairLevelTwo();
    MineSteps(ts, 2, 2, ones, 2);
    MineSteps(ts, 2, 2, NextLevel(ts, 2, ones, 2), 3);
  }

  /**
   * The whole run on two transactions {1, 2} at degree 2: level 1 is
   * {1: 2, 2: 2}, level 2 is {(1, 2): 2}, and nothing follows.
   */
  lemma PairStore()
    ensures GetFrequentItems([[1, 2], [1, 2]], 2)
         == Mined([[Frequent([1], 2), Frequent([2], 2)], [Frequent([1, 2], 2)]])
  {
    var ones := [Frequent([1], 2), Frequent([2], 2)];
    var twos := [Frequent([1, 2], 2)];
    PairLevelOne();
    PairMine();
    assert [ones] + [twos] == [ones, twos];
  }

  /** The store {1, 2}, {1}, {2}: items 1 and 2 occur twice each, item 0 never. */
  lemma ScatteredOccurrences(i: Item)
    requires i < 3
    ensures Occurrences([[1, 2], [1], [2]], i) == if i == 0 then 0 else 2
  {
    var ts: seq<Transaction> := [[1, 2], [1], [2]];
    var one: seq<Transaction> := [[1, 2]];
    assert ts[..2] == one + [[1]] && ts[..2][..1] == one && one[..0] == [];
    assert Occurrences(one, i) == multiset([1, 2])[i];
    assert Occurrences(ts[..2], i) == multiset([1, 2])[i] + multiset([1])[i];
  }

  lemma ScatteredCounts(arr: seq<nat>)
    requires arr == Tally(Zeros(3), [[1, 2], [1], [2]])
    ensures arr == [0, 2, 2]
  {
    ScatteredOccurrences(0);
    ScatteredOccurrences(1);
    ScatteredOccurrences(2);
  }

  lemma ScatteredMax()
    ensures MaxItem([[1, 2], [1], [2]]) == Some(2)
  {
    var ts: seq<Transaction> := [[1, 2], [1], [2]];
    assert ts[..2] == [[1, 2], [1]] && ts[..2][..1] == [[1, 2]] && ts[..2][..1][..0] == [];
    assert MaxOf([1, 2]) == 2 by {
      assert [1, 2][1..] == [2];
    }
  }

  /** The store {1, 2}, {1}, {2} at degree 2: the largest item is 2 and level 1 is {1: 2, 2: 2}. */
  lemma ScatteredLevelOne()
    ensures MaxItem([[1, 2], [1], [2]]) == Some(2)
    ensures FrequentOnes([[1, 2], [1], [2]], 2, 2) == [Frequent([1], 2), Frequent([2], 2)]
  {
    ScatteredMax();
    ScatteredCounts(Tally(Zeros(3), [[1, 2], [1], [2]]));
    PairFilter();
  }

  /** Only one transaction holds both 1 and 2, so the candidate (1, 2) has support 1. */
  lemma ScatteredSupport()
    ensures Supports([[1, 2], [1], [2]], [[1, 2]]) == [1]
  {
    var ts: seq<Transaction> := [[1, 2], [1], [2]];
    assert Contains([1, 2], [1, 2]);
    assert !Contains([1], [1, 2]) by {
      assert 2 !in [1];
    }
    assert !Contains([2], [1, 2]);
    assert ts[..2] == [[1, 2], [1]] && ts[..2][..1] == [[1, 2]] && ts[..2][..1][..0] == [];
    assert Support(ts, [1, 2]) == 1;
  }

  /** From level 1 = {1: 2, 2: 2} the candidate (1, 2) misses the degree, so level 2 is empty. */
  lemma ScatteredLevelTwo()
    ensures AllSorted(ItemsOf([Frequent([1], 2), Frequent([2], 2)]))
    ensures NextLevel([[1, 2], [1], [2]], 2, [Frequent([1], 2), Frequent([2], 2)], 2) == []
  {
    var ones := [Frequent([1], 2), Frequent([2], 2)];
    assert ItemsOf(ones) == [[1], [2]];
    PairJoin();
    ScatteredSupport();
    assert KeepFrequent([[1, 2]], [1], 2) == [];
  }

  /** From that level 1 the run stops at once: level 2 is empty, so nothing is reported past level 1. */
  lemma ScatteredMine()
    ensures Ready([Frequent([1], 2), Frequent([2], 2)], 2, 2)
    ensures Mine([[1, 2], [1], [2]], 2, 2, [Frequent([1], 2), Frequent([2], 2)], 2) == []
  {
    var ts: seq<Transaction> := [[1, 2], [1], [2]];
    var ones := [Frequent([1], 2), Frequent([2], 2)];
    assert Ready(ones, 2, 2);
    ScatteredLevelTwo();
    MineSteps(ts, 2, 2, ones, 2);
  }

  /**
   * The whole run on {1, 2}, {1}, {2} at degree 2: level 1 is {1: 2, 2: 2};
   * level 2 comes out empty, so the run stops with level 1 alone.
   */
  lemma ScatteredStore()
    ensures GetFrequentItems([[1, 2], [1], [2]], 2) == Mined([[Frequent([1], 2), Frequent([2], 2)]])
  {
    var ts: seq<Transaction> := [[1, 2], [1], [2]];
    var ones := [Frequent([1], 2), Frequent([2], 2)];
    ScatteredLevelOne();
    ScatteredLevelTwo();
    SingleLevelRun(ts, 2, ones);
  }
}
