/**
 * The support filter shared by both levels of the miner:
 * `for i, e in enumerate(arr): if e >= min_support_degree: keep i`.
 */
module Filtering {
  import opened ItemSets

  /** The positions of `counts`, ascending, whose count reaches `degree`. */
  function Kept(counts: seq<nat>, degree: int): seq<nat>
  {
    if |counts| == 0 then []
    else
      var last := |counts| - 1;
      Kept(counts[..last], degree) + (if counts[last] >= degree then [last] else [])
  }

  /**
   * `Kept` lists positions of `counts` that reach the degree, in strictly
   * increasing order, and misses none of them.
   */
  lemma {:induction false} KeptPositions(counts: seq<nat>, degree: int)
    ensures forall n :: 0 <= n < |Kept(counts, degree)| ==>
      Kept(counts, degree)[n] < |counts| && counts[Kept(counts, degree)[n]] >= degree
    ensures forall n, m :: 0 <= n < m < |Kept(counts, degree)| ==> Kept(counts, degree)[n] < Kept(counts, degree)[m]
    ensures forall i :: 0 <= i < |counts| && counts[i] >= degree ==> i in Kept(counts, degree)
    decreases |counts|
  {
    if |counts| > 0 {
      var last := |counts| - 1;
      KeptPositions(counts[..last], degree);
      var front := Kept(counts[..last], degree);
      assert forall n :: 0 <= n < |front| ==> front[n] < last;
    }
  }

  /**
   * The filter as the source writes it: walk the candidates with their counts
   * in order and keep `{candidate: count}` whenever the count reaches the
   * degree.
   */
  function KeepFrequent(cands: seq<Itemset>, counts: seq<nat>, degree: int): seq<Frequent>
    requires |cands| == |counts|
  {
    if |cands| == 0 then []
    else
      var last := |cands| - 1;
      KeepFrequent(cands[..last], counts[..last], degree)
        + (if counts[last] >= degree then [Frequent(cands[last], counts[last])] else [])
  }

  /**
   * The filter keeps the candidates at exactly the positions `Kept` selects,
   * in the same order, each paired with its own count.
   */
  lemma {:induction false} KeepFrequentPicksKept(cands: seq<Itemset>, counts: seq<nat>, degree: int)
    requires |cands| == |counts|
    ensures |KeepFrequent(cands, counts, degree)| == |Kept(counts, degree)|
    ensures forall n :: 0 <= n < |KeepFrequent(cands, counts, degree)| ==>
      && Kept(counts, degree)[n] < |cands|
      && KeepFrequent(cands, counts, degree)[n]
           == Frequent(cands[Kept(counts, degree)[n]], counts[Kept(counts, degree)[n]])
    decreases |cands|
  {
    KeptPositions(counts, degree);
    if |cands| > 0 {
      var last := |cands| - 1;
      KeepFrequentPicksKept(cands[..last], counts[..last], degree);
    }
  }

  /**
   * Consequences of the filter for a caller: every kept entry reaches the
   * degree, every candidate that reaches it is kept, and nothing else appears.
   */
  lemma {:induction false} KeepFrequentExactly(cands: seq<Itemset>, counts: seq<nat>, degree: int)
    requires |cands| == |counts|
    ensures forall f :: f in KeepFrequent(cands, counts, degree) ==> f.support >= degree
    ensures forall i :: 0 <= i < |cands| && counts[i] >= degree ==>
      Frequent(cands[i], counts[i]) in KeepFrequent(cands, counts, degree)
    ensures forall f :: f in KeepFrequent(cands, counts, degree) <==>
      exists i :: 0 <= i < |cands| && counts[i] >= degree && f == Frequent(cands[i], counts[i])
  {
    var r := KeepFrequent(cands, counts, degree);
    var idx := Kept(counts, degree);
    KeptPositions(counts, degree);
    KeepFrequentPicksKept(cands, counts, degree);
    forall i | 0 <= i < |cands| && counts[i] >= degree
      ensures Frequent(cands[i], counts[i]) in r
    {
      var n :| 0 <= n < |idx| && idx[n] == i;
      assert r[n] == Frequent(cands[i], counts[i]);
    }
    forall f | f in r
      ensures exists i :: 0 <= i < |cands| && counts[i] >= degree && f == Frequent(cands[i], counts[i])
    {
      var n :| 0 <= n < |r| && r[n] == f;
      assert f == Frequent(cands[idx[n]], counts[idx[n]]);
    }
  }
}
