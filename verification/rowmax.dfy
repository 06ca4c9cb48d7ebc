/**
 * How `get_1_fi` sizes its counting array as written:
 * `np.array(ls, dtype=list).max()`, then `max(...)` again when the result is
 * a row. When every transaction has the same length the array is
 * two-dimensional and the maximum is taken over all items; when the lengths
 * differ it is a one-dimensional array of lists, compared as Python compares
 * lists, and the item maximum is taken inside the largest row only.
 */
module RowMax {
  import opened ItemSets
  import opened Apriori

  /** Python's `<` on two lists of integers: the first difference decides, a proper prefix is smaller. */
  predicate LexLess(a: seq<Item>, b: seq<Item>)
  {
    if |a| == 0 then |b| > 0
    else if |b| == 0 then false
    else if a[0] != b[0] then a[0] < b[0]
    else LexLess(a[1..], b[1..])
  }

  /** The largest row under `LexLess`, the first one on ties (Python's `max`). */
  function LargestRow(ts: seq<Transaction>): (row: Transaction)
    requires |ts| > 0
    ensures row in ts
  {
    if |ts| == 1 then ts[0]
    else
      var best := LargestRow(ts[..|ts| - 1]);
      if LexLess(best, ts[|ts| - 1]) then ts[|ts| - 1] else best
  }

  /** Python's list `<` is irreflexive. */
  lemma {:induction false} LexIrrefl(a: seq<Item>)
    ensures !LexLess(a, a)
    decreases |a|
  {
    if |a| > 0 {
      LexIrrefl(a[1..]);
    }
  }

  /** Python's list `<` is transitive. */
  lemma {:induction false} LexTrans(a: seq<Item>, b: seq<Item>, c: seq<Item>)
    requires LexLess(a, b) && LexLess(b, c)
    ensures LexLess(a, c)
    decreases |a|
  {
    if |a| > 0 && a[0] == b[0] && b[0] == c[0] {
      LexTrans(a[1..], b[1..], c[1..]);
    }
  }

  /** No transaction compares larger than the largest row, as numpy's `max` promises. */
  lemma {:induction false} LargestRowIsMax(ts: seq<Transaction>)
    requires |ts| > 0
    ensures forall t :: 0 <= t < |ts| ==> !LexLess(LargestRow(ts), ts[t])
    decreases |ts|
  {
    var last := ts[|ts| - 1];
    if |ts| == 1 {
      LexIrrefl(ts[0]);
    } else {
      var front := ts[..|ts| - 1];
      var best := LargestRow(front);
      LargestRowIsMax(front);
      assert forall t :: 0 <= t < |front| ==> front[t] == ts[t];
      if LexLess(best, last) {
        LexIrrefl(last);
        forall t | 0 <= t < |ts| - 1
          ensures !LexLess(last, ts[t])
        {
          if LexLess(last, ts[t]) {
            LexTrans(best, last, ts[t]);
          }
        }
      }
    }
  }

  /** Every transaction has the same length, so numpy builds a two-dimensional array. */
  predicate Rectangular(ts: seq<Transaction>)
  {
    forall t :: 0 <= t < |ts| ==> |ts[t]| == |ts[0]|
  }

  /** All items of the store, transaction after transaction (numpy's flattened view). */
  function Flatten(ts: seq<Transaction>): seq<Item>
  {
    if |ts| == 0 then [] else Flatten(ts[..|ts| - 1]) + ts[|ts| - 1]
  }

  lemma {:induction false} FlattenHolds(ts: seq<Transaction>)
    ensures forall x :: x in Flatten(ts) <==> exists t :: 0 <= t < |ts| && x in ts[t]
    decreases |ts|
  {
    if |ts| > 0 {
      var front := ts[..|ts| - 1];
      FlattenHolds(front);
      assert forall t :: 0 <= t < |front| ==> front[t] == ts[t];
    }
  }

  /**
   * The array bound as the source computes it: `None` where numpy fails on a
   * zero-size array (no transactions, or only empty ones of equal length).
   */
  function SourceMax(ts: seq<Transaction>): Option<Item>
  {
    if |ts| == 0 then None
    else if Rectangular(ts) then
      var all := Flatten(ts);
      if |all| == 0 then None else Some(Apriori.MaxOf(all))
    else
      var row := LargestRow(ts);
      if |row| == 0 then None else Some(Apriori.MaxOf(row))
  }

  /** The largest row is empty only when every row is: an empty list is below any other. */
  lemma {:induction false} LargestRowEmpty(ts: seq<Transaction>)
    requires |ts| > 0
    requires |LargestRow(ts)| == 0
    ensures forall t :: 0 <= t < |ts| ==> |ts[t]| == 0
    decreases |ts|
  {
    if |ts| > 1 {
      var front := ts[..|ts| - 1];
      var last := ts[|ts| - 1];
      assert !LexLess(LargestRow(front), last);
      LargestRowEmpty(front);
      assert forall t :: 0 <= t < |front| ==> front[t] == ts[t];
    }
  }

  /**
   * The source's bound fails exactly when no transaction holds an item, the
   * case in which `MaxItem` is `None` and the model reports `NoItems`.
   */
  lemma SourceMaxFails(ts: seq<Transaction>)
    ensures SourceMax(ts).None? <==> forall t :: 0 <= t < |ts| ==> |ts[t]| == 0
  {
    if |ts| > 0 {
      if Rectangular(ts) {
        FlattenHolds(ts);
      } else if |LargestRow(ts)| == 0 {
        LargestRowEmpty(ts);
      }
    }
  }

  /** When the source's bound exists it is an item of the store. */
  lemma SourceMaxInStore(ts: seq<Transaction>)
    ensures SourceMax(ts).Some? ==> exists t :: 0 <= t < |ts| && SourceMax(ts).value in ts[t]
  {
    if |ts| > 0 {
      if Rectangular(ts) {
        FlattenHolds(ts);
        if |Flatten(ts)| > 0 {
          assert Apriori.MaxOf(Flatten(ts)) in Flatten(ts);
        }
      } else {
        var row := LargestRow(ts);
        if |row| > 0 {
          var t :| 0 <= t < |ts| && ts[t] == row;
          assert Apriori.MaxOf(row) in ts[t];
        }
      }
    }
  }

  /** On a rectangular store the source's bound is the largest item, as the model uses it. */
  lemma RectangularAgrees(ts: seq<Transaction>)
    requires Rectangular(ts)
    ensures SourceMax(ts) == MaxItem(ts)
  {
    if |ts| > 0 {
      var all := Flatten(ts);
      FlattenHolds(ts);
      if |all| > 0 {
        var m := Apriori.MaxOf(all);
        var t :| 0 <= t < |ts| && m in ts[t];
        var v := MaxItem(ts).value;
        assert m <= v;
        var u :| 0 <= u < |ts| && v in ts[u];
        assert v in all;
        assert v <= m;
      }
    }
  }

  /** Python's list `<` is asymmetric. */
  lemma {:induction false} LexAsymmetric(a: seq<Item>, b: seq<Item>)
    requires LexLess(a, b)
    ensures !LexLess(b, a)
    decreases |a|
  {
    if |a| > 0 && |b| > 0 && a[0] == b[0] {
      LexAsymmetric(a[1..], b[1..]);
    }
  }

  /**
   * On a store of two transactions of different lengths, the source's bound
   * is the largest item of the row that compares larger, whatever the other
   * row holds.
   */
  lemma RaggedRowDecides(a: Transaction, b: Transaction)
    requires |a| != |b| && |a| > 0
    requires LexLess(b, a)
    ensures SourceMax([a, b]) == Some(Apriori.MaxOf(a))
  {
    var ts := [a, b];
    assert |ts[1]| != |ts[0]|;
    assert ts[..1] == [a];
    LexAsymmetric(b, a);
    assert LargestRow(ts) == a;
  }

  /**
   * Two transactions of different lengths, [1] and [0, 5]: numpy compares the
   * rows, [1] is the larger, so the counting array gets size 2 while item 5
   * must be counted at `arr[5]`; the true largest item is 5.
   */
  lemma RaggedBoundTooSmall()
    ensures SourceMax([[1], [0, 5]]) == Some(1)
    ensures 5 in [[1], [0, 5]][1] && 5 > 1
    ensures MaxItem([[1], [0, 5]]) == Some(5)
  {
    assert LexLess([0, 5], [1]);
    RaggedRowDecides([1], [0, 5]);
    assert Apriori.MaxOf([1]) == 1;
    assert [[1], [0, 5]][1] == [0, 5];
  }
}
