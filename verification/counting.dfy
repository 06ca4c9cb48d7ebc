/**
 * The two counts of the Apriori miner: the per-item occurrence counting of
 * level 1 (`arr[j] += 1` for every item of every transaction) and the support
 * count of a candidate itemset (the number of transactions that contain it).
 */
module Counting {
  import opened ItemSets

  /**
   * Support of `c` in `ts`: the scan `arr[i] += 1 if check_ele_exist(c, line)`
   * over the transactions in order.
   */
  function Support(ts: seq<Transaction>, c: seq<Item>): (n: nat)
    ensures n <= |ts|
  {
    if |ts| == 0 then 0
    else Support(ts[..|ts| - 1], c) + (if Contains(ts[|ts| - 1], c) then 1 else 0)
  }

  /** The positions of the transactions of which `c` is a subset. */
  function Holders(ts: seq<Transaction>, c: seq<Item>): set<nat>
  {
    set t | 0 <= t < |ts| && Contains(ts[t], c)
  }

  /** The scan count is the number of transactions that contain the itemset. */
  lemma {:induction false} SupportCountsHolders(ts: seq<Transaction>, c: seq<Item>)
    ensures Support(ts, c) == |Holders(ts, c)|
    decreases |ts|
  {
    if |ts| > 0 {
      var last := |ts| - 1;
      var front := ts[..last];
      SupportCountsHolders(front, c);
      assert Holders(front, c) == Holders(ts, c) - {last};
      if Contains(ts[last], c) {
        assert Holders(ts, c) == Holders(front, c) + {last};
      } else {
        assert Holders(ts, c) == Holders(front, c);
      }
    }
  }

  /** Support only grows when the itemset shrinks: the subset test is monotone. */
  lemma {:induction false} SupportAntiMonotone(ts: seq<Transaction>, a: seq<Item>, c: seq<Item>)
    requires Elements(a) <= Elements(c)
    ensures Support(ts, c) <= Support(ts, a)
    decreases |ts|
  {
    if |ts| > 0 {
      SupportAntiMonotone(ts[..|ts| - 1], a, c);
      ContainsIsSubset(ts[|ts| - 1], a);
      ContainsIsSubset(ts[|ts| - 1], c);
    }
  }

  /** Extending the store by one transaction adds that transaction's vote. */
  lemma SupportSnoc(ts: seq<Transaction>, t: nat, c: seq<Item>)
    requires t < |ts|
    ensures Support(ts[..t + 1], c) == Support(ts[..t], c) + (if Contains(ts[t], c) then 1 else 0)
  {
    assert ts[..t + 1][..t] == ts[..t];
  }

  /**
   * The counting pass of `get_k_fi`: one sweep over the transactions, testing
   * every candidate against each one. As in the source the counter array has
   * one more slot than there are candidates and candidate `n` counts in slot
   * `n + 1`.
   */
  method CountPass(ts: seq<Transaction>, cands: seq<Itemset>) returns (arr: seq<nat>)
    ensures |arr| == |cands| + 1
    ensures arr[0] == 0
    ensures forall n :: 0 <= n < |cands| ==> arr[n + 1] == Support(ts, cands[n])
    ensures arr[1..] == Supports(ts, cands)
  {
    arr := seq(|cands| + 1, _ => 0);
    var t := 0;
    while t < |ts|
      invariant 0 <= t <= |ts|
      invariant |arr| == |cands| + 1 && arr[0] == 0
      invariant forall n :: 0 <= n < |cands| ==> arr[n + 1] == Support(ts[..t], cands[n])
    {
      var line := ts[t];
      var i := 0;
      while i < |cands|
        invariant 0 <= i <= |cands|
        invariant |arr| == |cands| + 1 && arr[0] == 0
        invariant forall n :: 0 <= n < i ==> arr[n + 1] == Support(ts[..t + 1], cands[n])
        invariant forall n :: i <= n < |cands| ==> arr[n + 1] == Support(ts[..t], cands[n])
      {
        SupportSnoc(ts, t, cands[i]);
        arr := arr[i + 1 := arr[i + 1] + (if Contains(line, cands[i]) then 1 else 0)];
        i := i + 1;
      }
      t := t + 1;
    }
    assert ts[..|ts|] == ts;
  }

  /** The subset-scan support of every candidate, in candidate order. */
  function Supports(ts: seq<Transaction>, cands: seq<Itemset>): seq<nat>
  {
    seq(|cands|, n requires 0 <= n < |cands| => Support(ts, cands[n]))
  }

  /** How often item `i` occurs in the store, repeats inside one transaction included. */
  function Occurrences(ts: seq<Transaction>, i: Item): nat
  {
    if |ts| == 0 then 0
    else Occurrences(ts[..|ts| - 1], i) + multiset(ts[|ts| - 1])[i]
  }

  /** `for j in line: arr[j] += 1`. */
  function BumpAll(arr: seq<nat>, line: Transaction): (r: seq<nat>)
    requires forall x :: x in line ==> x < |arr|
    ensures |r| == |arr|
    ensures forall i :: 0 <= i < |arr| ==> r[i] == arr[i] + multiset(line)[i]
  {
    if |line| == 0 then arr
    else
      var front := line[..|line| - 1];
      var j := line[|line| - 1];
      assert line == front + [j];
      assert j in line;
      assert forall x :: x in front ==> x in line;
      var r := BumpAll(arr, front);
      r[j := r[j] + 1]
  }

  /** `for line in ls: for j in line: arr[j] += 1`, starting from `arr`. */
  function Tally(arr: seq<nat>, ts: seq<Transaction>): (r: seq<nat>)
    requires forall t, x :: 0 <= t < |ts| && x in ts[t] ==> x < |arr|
    ensures |r| == |arr|
    ensures forall i :: 0 <= i < |arr| ==> r[i] == arr[i] + Occurrences(ts, i)
  {
    if |ts| == 0 then arr
    else BumpAll(Tally(arr, ts[..|ts| - 1]), ts[|ts| - 1])
  }

  /** A transaction in which no item repeats. */
  predicate NoRepeats(line: Transaction)
  {
    forall a, b :: 0 <= a < b < |line| ==> line[a] != line[b]
  }

  lemma {:induction false} NoRepeatsCountsOnce(line: Transaction, i: Item)
    requires NoRepeats(line)
    ensures multiset(line)[i] <= 1
    decreases |line|
  {
    if |line| > 0 {
      var front := line[..|line| - 1];
      assert line == front + [line[|line| - 1]];
      NoRepeatsCountsOnce(front, i);
      if line[|line| - 1] == i {
        assert i !in front;
      }
    }
  }

  /**
   * The level-1 occurrence count is never below the support of the singleton
   * itemset, and equals it when no transaction repeats an item.
   */
  lemma {:induction false} OccurrencesBoundSupport(ts: seq<Transaction>, i: Item)
    ensures Support(ts, [i]) <= Occurrences(ts, i)
    ensures (forall t :: 0 <= t < |ts| ==> NoRepeats(ts[t])) ==> Support(ts, [i]) == Occurrences(ts, i)
    decreases |ts|
  {
    if |ts| > 0 {
      var last := ts[|ts| - 1];
      OccurrencesBoundSupport(ts[..|ts| - 1], i);
      assert Contains(last, [i]) <==> i in last by {
        ContainsIsSubset(last, [i]);
        assert Elements([i]) == {i};
      }
      if forall t :: 0 <= t < |ts| ==> NoRepeats(ts[t]) {
        NoRepeatsCountsOnce(last, i);
      }
    }
  }
}
