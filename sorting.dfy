/** The sorting helpers the node relies on: argsort, `sort_values_and_indices`, and
    `searchsorted` over a sort permutation. */
module Sorting {
  import opened Vectors

  predicate Ascending(s: seq<int>) {
    forall i, j :: 0 <= i < j < |s| ==> s[i] <= s[j]
  }

  /** The positions in `sorter`, read in order, visit `values` in ascending order. */
  predicate SortedBy(values: seq<int>, sorter: seq<int>)
    requires InBounds(sorter, |values|)
  {
    forall i, j :: 0 <= i < j < |sorter| ==> values[sorter[i]] <= values[sorter[j]]
  }

  /** Inserts position p into a sort permutation after every leading position whose value
      is not larger than values[p]. */
  function Insert(values: seq<int>, sorter: seq<int>, p: int): (r: seq<int>)
    requires InBounds(sorter, |values|) && 0 <= p < |values|
    ensures InBounds(r, |values|)
    decreases |sorter|
  {
    if sorter == [] then [p]
    else if values[p] < values[sorter[0]] then [p] + sorter
    else [sorter[0]] + Insert(values, sorter[1..], p)
  }

  /** Insertion adds p to the permutation and loses nothing. */
  lemma {:induction false} InsertMultiset(values: seq<int>, sorter: seq<int>, p: int)
    requires InBounds(sorter, |values|) && 0 <= p < |values|
    ensures multiset(Insert(values, sorter, p)) == multiset(sorter) + multiset{p}
    decreases |sorter|
  {
    if sorter != [] && values[sorter[0]] <= values[p] {
      InsertMultiset(values, sorter[1..], p);
      assert sorter == [sorter[0]] + sorter[1..];
    }
  }

  /** A position whose value is at most every value of a sorted permutation can lead it. */
  lemma SortedCons(values: seq<int>, h: int, rest: seq<int>)
    requires 0 <= h < |values| && InBounds(rest, |values|) && SortedBy(values, rest)
    requires forall k :: 0 <= k < |rest| ==> values[h] <= values[rest[k]]
    ensures InBounds([h] + rest, |values|) && SortedBy(values, [h] + rest)
  {
    var r := [h] + rest;
    forall i, j | 0 <= i < j < |r| ensures values[r[i]] <= values[r[j]] {
      assert r[j] == rest[j - 1];
      if i > 0 {
        assert r[i] == rest[i - 1];
      }
    }
  }

  /** Insertion keeps a sort permutation sorted. */
  lemma {:induction false} InsertSorted(values: seq<int>, sorter: seq<int>, p: int)
    requires InBounds(sorter, |values|) && 0 <= p < |values|
    requires SortedBy(values, sorter)
    ensures SortedBy(values, Insert(values, sorter, p))
    decreases |sorter|
  {
    if sorter == [] {
    } else if values[p] < values[sorter[0]] {
      SortedCons(values, p, sorter);
    } else {
      var h, tail := sorter[0], sorter[1..];
      var rest := Insert(values, tail, p);
      InsertSorted(values, tail, p);
      InsertMultiset(values, tail, p);
      forall k | 0 <= k < |rest| ensures values[h] <= values[rest[k]] {
        assert rest[k] in multiset(rest);
        if rest[k] != p {
          assert rest[k] in multiset(tail);
          var m :| 0 <= m < |tail| && tail[m] == rest[k];
          assert sorter[m + 1] == tail[m];
        }
      }
      SortedCons(values, h, rest);
    }
  }

  /** 0 .. n-1 is 0 .. n-2 with n-1 added. */
  lemma RangeSnoc(n: nat)
    requires n > 0
    ensures multiset(Range(n)) == multiset(Range(n - 1)) + multiset{n - 1}
  {
    assert Range(n) == Range(n - 1) + [n - 1];
  }

  /** Argsort of the first n values, by insertion. */
  function ArgSortPrefix(values: seq<int>, n: nat): (sorter: seq<int>)
    requires n <= |values|
    ensures InBounds(sorter, |values|)
  {
    if n == 0 then [] else Insert(values, ArgSortPrefix(values, n - 1), n - 1)
  }

  /** The insertion argsort of the first n values lists each of them once. */
  lemma {:induction false} ArgSortPrefixPermutes(values: seq<int>, n: nat)
    requires n <= |values|
    ensures multiset(ArgSortPrefix(values, n)) == multiset(Range(n))
  {
    if n == 0 {
      assert Range(0) == [];
    } else {
      var prev := ArgSortPrefix(values, n - 1);
      ArgSortPrefixPermutes(values, n - 1);
      InsertMultiset(values, prev, n - 1);
      RangeSnoc(n);
    }
  }

  /** The insertion argsort of the first n values visits them in ascending order. */
  lemma {:induction false} ArgSortPrefixSorted(values: seq<int>, n: nat)
    requires n <= |values|
    ensures SortedBy(values, ArgSortPrefix(values, n))
  {
    if n > 0 {
      ArgSortPrefixSorted(values, n - 1);
      InsertSorted(values, ArgSortPrefix(values, n - 1), n - 1);
    }
  }

  /** `argsort(values)`: a permutation of the positions of values that visits them in
      ascending order. The source sorts with quicksort, so the order among equal values is
      unspecified there; nothing below depends on it. */
  function ArgSort(values: seq<int>): (sorter: seq<int>)
    ensures |sorter| == |values|
    ensures InBounds(sorter, |values|)
    ensures multiset(sorter) == multiset(Range(|values|))
    ensures SortedBy(values, sorter)
  {
    var sorter := ArgSortPrefix(values, |values|);
    ArgSortPrefixPermutes(values, |values|);
    ArgSortPrefixSorted(values, |values|);
    assert |sorter| == |multiset(sorter)| == |Range(|values|)|;
    sorter
  }

  /** Reordering two parallel arrays by a sort permutation of the first. */
  lemma Reordered(values: seq<int>, indices: seq<int>, sorter: seq<int>)
    requires |values| == |indices| && |sorter| == |values|
    requires InBounds(sorter, |values|) && SortedBy(values, sorter)
    requires multiset(sorter) == multiset(Range(|values|))
    ensures Ascending(Take(values, sorter))
    ensures multiset(Take(values, sorter)) == multiset(values)
    ensures multiset(Take(indices, sorter)) == multiset(indices)
  {
    MultisetTake(values, sorter, Range(|values|));
    MultisetTake(indices, sorter, Range(|indices|));
    TakeRange(values);
    TakeRange(indices);
  }

  /** Value v and index i stand at one and the same position of `subset`. */
  predicate Paired(allValues: seq<int>, allIndices: seq<int>, subset: seq<int>, v: int, i: int)
    requires InBounds(subset, |allValues|) && InBounds(subset, |allIndices|)
  {
    exists j :: 0 <= j < |subset| && v == allValues[subset[j]] && i == allIndices[subset[j]]
  }

  /** Reordering by any permutation keeps each value beside the index it was taken with. */
  lemma ReorderedPairs(allValues: seq<int>, allIndices: seq<int>, subset: seq<int>, sorter: seq<int>)
    requires InBounds(subset, |allValues|) && InBounds(subset, |allIndices|)
    requires InBounds(sorter, |subset|)
    ensures forall k :: 0 <= k < |sorter| ==> Paired(allValues, allIndices, subset,
              Take(Take(allValues, subset), sorter)[k], Take(Take(allIndices, subset), sorter)[k])
  {
    forall k | 0 <= k < |sorter|
      ensures Paired(allValues, allIndices, subset,
                Take(Take(allValues, subset), sorter)[k], Take(Take(allIndices, subset), sorter)[k])
    {
      var j := sorter[k];
      assert Take(Take(allValues, subset), sorter)[k] == allValues[subset[j]];
      assert Take(Take(allIndices, subset), sorter)[k] == allIndices[subset[j]];
    }
  }

  /** `sort_values_and_indices`: the values and the indices at the positions in `subset`,
      both reordered by the one permutation that sorts the values. */
  function SortValuesAndIndices(allValues: seq<int>, allIndices: seq<int>, subset: seq<int>)
    : (r: (seq<int>, seq<int>))
    requires InBounds(subset, |allValues|) && InBounds(subset, |allIndices|)
    ensures |r.0| == |subset| && |r.1| == |subset|
    ensures Ascending(r.0)
    ensures multiset(r.0) == multiset(Take(allValues, subset))
    ensures multiset(r.1) == multiset(Take(allIndices, subset))
    ensures forall k :: 0 <= k < |subset| ==> Paired(allValues, allIndices, subset, r.0[k], r.1[k])
  {
    var indices := Take(allIndices, subset);
    var values := Take(allValues, subset);
    var sorter := ArgSort(values);
    Reordered(values, indices, sorter);
    ReorderedPairs(allValues, allIndices, subset, sorter);
    (Take(values, sorter), Take(indices, sorter))
  }

  /** Both results are the taken arrays reordered by one and the same permutation of the
      subset's positions, so every (value, index) pair keeps its multiplicity. */
  lemma SortValuesAndIndicesReorders(allValues: seq<int>, allIndices: seq<int>, subset: seq<int>)
    requires InBounds(subset, |allValues|) && InBounds(subset, |allIndices|)
    ensures var r := SortValuesAndIndices(allValues, allIndices, subset);
            exists s :: && |s| == |subset| && InBounds(s, |subset|)
                        && multiset(s) == multiset(Range(|subset|))
                        && r.0 == Take(Take(allValues, subset), s)
                        && r.1 == Take(Take(allIndices, subset), s)
  {
    var s := ArgSort(Take(allValues, subset));
    assert |s| == |subset|;
  }

  /** `searchsorted(key, sorter=sorter)` with side 'left': the first place in the sorted order
      whose value is not below key. */
  method SearchSorted(values: seq<int>, sorter: seq<int>, key: int) returns (i: int)
    requires InBounds(sorter, |values|) && SortedBy(values, sorter)
    ensures 0 <= i <= |sorter|
    ensures forall k :: 0 <= k < i ==> values[sorter[k]] < key
    ensures forall k :: i <= k < |sorter| ==> key <= values[sorter[k]]
  {
    var lo, hi := 0, |sorter|;
    while lo < hi
      invariant 0 <= lo <= hi <= |sorter|
      invariant forall k :: 0 <= k < lo ==> values[sorter[k]] < key
      invariant forall k :: hi <= k < |sorter| ==> key <= values[sorter[k]]
    {
      var mid := (lo + hi) / 2;
      if values[sorter[mid]] < key {
        lo := mid + 1;
      } else {
        hi := mid;
      }
    }
    i := lo;
  }
}


