/**
 * Items, transactions and itemsets of the Apriori miner, the subset test
 * `check_ele_exist`, and the sorted union `sorted(set(a) | set(b))` that the
 * candidate join builds from two itemsets.
 */
module ItemSets {

  /** An item identifier. The miner indexes counting arrays by it, so it is never negative. */
  type Item = nat

  /** One record of the transaction store, in input order; an item may repeat. */
  type Transaction = seq<Item>

  /** An itemset as the miner stores it: an ascending list without repeats. */
  type Itemset = seq<Item>

  /** A reported frequent itemset: the dictionary entry `{itemset: support}`. */
  datatype Frequent = Frequent(items: Itemset, support: nat)

  datatype Option<+T> = None | Some(value: T)

  /** The items of a list, forgetting order and repeats (Python's `set(...)`). */
  function Elements(s: seq<Item>): set<Item>
  {
    set x | x in s
  }

  /** Ascending without repeats: the shape `sorted(set(...))` produces. */
  predicate StrictlySorted(s: seq<Item>)
  {
    forall i, j :: 0 <= i < j < |s| ==> s[i] < s[j]
  }

  /** `check_ele_exist(elem, line)`: scan `elem` and fail at the first item missing from `line`. */
  function Contains(line: Transaction, elem: seq<Item>): bool
  {
    if |elem| == 0 then true
    else elem[0] in line && Contains(line, elem[1..])
  }

  /** The scan succeeds exactly when every item of `elem` is also an item of `line`. */
  lemma {:induction false} ContainsIsSubset(line: Transaction, elem: seq<Item>)
    ensures Contains(line, elem) <==> Elements(elem) <= Elements(line)
    decreases |elem|
  {
    if |elem| > 0 {
      ElementsSplit(elem);
      ContainsIsSubset(line, elem[1..]);
    }
  }

  lemma SortedCons(x: Item, s: Itemset)
    requires StrictlySorted(s)
    requires forall y :: y in s ==> x < y
    ensures StrictlySorted([x] + s)
  {
    var r := [x] + s;
    forall i, j | 0 <= i < j < |r|
      ensures r[i] < r[j]
    {
      if i == 0 {
        assert r[j] == s[j - 1];
        assert s[j - 1] in s;
      }
    }
  }

  lemma ElementsCons(x: Item, s: seq<Item>)
    ensures Elements([x] + s) == {x} + Elements(s)
  {
  }

  lemma ElementsSplit(s: seq<Item>)
    requires |s| > 0
    ensures Elements(s) == {s[0]} + Elements(s[1..])
  {
    ElementsCons(s[0], s[1..]);
    assert s == [s[0]] + s[1..];
  }

  /** The head of an ascending list is below everything after it. */
  lemma HeadIsLeast(s: Itemset)
    requires StrictlySorted(s) && |s| > 0
    ensures forall y :: y in s[1..] ==> s[0] < y
    ensures forall y :: y in s ==> s[0] <= y
  {
  }

  lemma MergeStep(x: Item, rest: Itemset, p: Itemset, q: Itemset)
    requires StrictlySorted(rest)
    requires Elements(rest) == Elements(p) + Elements(q)
    requires forall y :: y in p ==> x < y
    requires forall y :: y in q ==> x < y
    ensures StrictlySorted([x] + rest)
  {
    assert forall y :: y in rest ==> y in Elements(p) + Elements(q);
    SortedCons(x, rest);
  }

  /**
   * `sorted(set(a) | set(b))` for two itemsets, computed by merging the two
   * ascending lists.
   */
  function Union(a: Itemset, b: Itemset): Itemset
    decreases |a| + |b|
  {
    if |a| == 0 then b
    else if |b| == 0 then a
    else
      var x := if a[0] <= b[0] then a[0] else b[0];
      var a' := if a[0] == x then a[1..] else a;
      var b' := if b[0] == x then b[1..] else b;
      [x] + Union(a', b')
  }

  /** The merge is ascending without repeats and holds exactly the items of both inputs. */
  lemma {:induction false} UnionIsSetUnion(a: Itemset, b: Itemset)
    requires StrictlySorted(a) && StrictlySorted(b)
    ensures StrictlySorted(Union(a, b))
    ensures Elements(Union(a, b)) == Elements(a) + Elements(b)
    decreases |a| + |b|
  {
    if |a| > 0 && |b| > 0 {
      var x := if a[0] <= b[0] then a[0] else b[0];
      var a' := if a[0] == x then a[1..] else a;
      var b' := if b[0] == x then b[1..] else b;
      MergeHead(a, b, x, a', b');
      var rest := Union(a', b');
      assert Union(a, b) == [x] + rest;
      UnionIsSetUnion(a', b');
      MergeStep(x, rest, a', b');
      ElementsCons(x, rest);
    }
  }

  /** What one merge step takes off the front of two non-empty itemsets. */
  lemma MergeHead(a: Itemset, b: Itemset, x: Item, a': Itemset, b': Itemset)
    requires StrictlySorted(a) && StrictlySorted(b) && |a| > 0 && |b| > 0
    requires x == if a[0] <= b[0] then a[0] else b[0]
    requires a' == if a[0] == x then a[1..] else a
    requires b' == if b[0] == x then b[1..] else b
    ensures StrictlySorted(a') && StrictlySorted(b')
    ensures |a'| + |b'| < |a| + |b|
    ensures forall y :: y in a' ==> x < y
    ensures forall y :: y in b' ==> x < y
    ensures Elements(a) + Elements(b) == {x} + Elements(a') + Elements(b')
  {
    MergeHeadElements(a, b, x, a', b');
    HeadIsLeast(a);
    HeadIsLeast(b);
    TailSorted(a);
    TailSorted(b);
    if a[0] < b[0] {
      assert a' == a[1..] && b' == b;
    } else if b[0] < a[0] {
      assert a' == a && b' == b[1..];
    } else {
      assert a' == a[1..] && b' == b[1..];
    }
  }

  lemma MergeHeadElements(a: Itemset, b: Itemset, x: Item, a': Itemset, b': Itemset)
    requires |a| > 0 && |b| > 0
    requires x == if a[0] <= b[0] then a[0] else b[0]
    requires a' == if a[0] == x then a[1..] else a
    requires b' == if b[0] == x then b[1..] else b
    ensures Elements(a) + Elements(b) == {x} + Elements(a') + Elements(b')
  {
    ElementsSplit(a);
    ElementsSplit(b);
  }

  lemma TailSorted(s: Itemset)
    requires StrictlySorted(s) && |s| > 0
    ensures StrictlySorted(s[1..])
  {
  }

  /** An ascending list without repeats is determined by its set of items. */
  lemma {:induction false} SortedUnique(a: Itemset, b: Itemset)
    requires StrictlySorted(a) && StrictlySorted(b)
    requires Elements(a) == Elements(b)
    ensures a == b
    decreases |a|
  {
    SortedCardinality(a);
    SortedCardinality(b);
    if |a| > 0 {
      assert a[0] in Elements(b);
      assert b[0] in Elements(a);
      assert a[0] == b[0];
      assert a == [a[0]] + a[1..];
      assert b == [b[0]] + b[1..];
      assert a[0] !in a[1..];
      assert b[0] !in b[1..];
      assert Elements(a[1..]) == Elements(a) - {a[0]};
      assert Elements(b[1..]) == Elements(b) - {b[0]};
      SortedUnique(a[1..], b[1..]);
    }
  }

  /** The length of an ascending list without repeats is the number of its items. */
  lemma {:induction false} SortedCardinality(s: Itemset)
    requires StrictlySorted(s)
    ensures |Elements(s)| == |s|
    decreases |s|
  {
    if |s| > 0 {
      assert s == [s[0]] + s[1..];
      assert s[0] !in s[1..];
      assert Elements(s) == {s[0]} + Elements(s[1..]);
      SortedCardinality(s[1..]);
    }
  }

  /** In an ascending list without repeats the last entry is at least the list's length minus one. */
  lemma {:induction false} SortedGrows(s: Itemset)
    requires StrictlySorted(s)
    requires |s| > 0
    ensures s[|s| - 1] >= |s| - 1
    decreases |s|
  {
    if |s| > 1 {
      SortedGrows(s[..|s| - 1]);
    }
  }

  /** At most `bound + 1` distinct items lie in `0..bound`. */
  lemma SortedLengthBound(s: Itemset, bound: nat)
    requires StrictlySorted(s)
    requires forall x :: x in s ==> x <= bound
    ensures |s| <= bound + 1
  {
    if |s| > 0 {
      SortedGrows(s);
      assert s[|s| - 1] in s;
    }
  }
}
