/** IntervalTree: the public face of the centered interval tree. */
module Trees {
  import opened Results
  import opened Closure
  import opened Vectors
  import opened Sorting
  import opened Nodes

  /** A tree keeps the bounds it was built from, its closure mode and its root node. */
  datatype IntervalTree = IntervalTree(left: seq<int>, right: seq<int>, closed: Closed, root: IntervalNode)

  /** A tree is valid when its root is a valid node over its own bounds that holds every
      position 0 .. n-1 exactly once. */
  ghost predicate Valid(t: IntervalTree) {
    && |t.left| == |t.right|
    && NodeValid(t.closed, t.left, t.right, t.root)
    && multiset(Members(t.root)) == multiset(Range(|t.left|))
  }

  /** The reference answer: the positions, in increasing order, of the intervals that
      contain p, found by checking every interval. */
  function Overlapping(t: IntervalTree, p: int): seq<int>
    requires |t.left| == |t.right|
  {
    Matching(t.closed, t.left, t.right, Range(|t.left|), p)
  }

  /** The reference answer lists each containing interval once, in increasing order. */
  lemma OverlappingMembers(t: IntervalTree, p: int)
    requires |t.left| == |t.right|
    ensures StrictlyIncreasing(Overlapping(t, p))
    ensures forall i :: i in Overlapping(t, p) <==> 0 <= i < |t.left| && Contains(t.closed, t.left[i], t.right[i], p)
  {
    var n := |t.left|;
    assert InBounds(Range(n), n);
    MatchingMembers(t.closed, t.left, t.right, Range(n), p);
    MatchingIncreasing(t.closed, t.left, t.right, Range(n), p);
    forall i ensures i in Range(n) <==> 0 <= i < n {
      if 0 <= i < n {
        assert Range(n)[i] == i;
      }
    }
  }

  /** Whatever its shape, a valid tree's root holds, up to order, the reference answer. */
  lemma RootMatchesOverlapping(t: IntervalTree, p: int)
    requires Valid(t)
    ensures multiset(Matching(t.closed, t.left, t.right, Members(t.root), p)) == multiset(Overlapping(t, p))
  {
    assert InBounds(Range(|t.left|), |t.left|);
    MatchingMultiset(t.closed, t.left, t.right, Members(t.root), Range(|t.left|), p);
  }

  /** `IntervalTree.__init__`: rejects an unknown closure mode, then builds the root over
      positions 0 .. n-1. */
  method NewIntervalTree(left: seq<int>, right: seq<int>, pivotOf: (seq<int>, seq<int>) -> int,
                         closed: string := "right", leafSize: int := 100)
    returns (r: Result<IntervalTree>)
    requires |left| == |right|
    ensures closed !in ClosedNames ==> r == Failure(InvalidClosed(closed))
    ensures closed in ClosedNames && r.Failure? ==> r.error == NoProgress
    ensures r.Success? ==> Valid(r.value) && r.value.left == left && r.value.right == right
                           && Name(r.value.closed) == closed
    ensures closed in ClosedNames && |left| <= leafSize ==>
              r.Success? && r.value.root == Leaf(left, right, Range(|left|))
    ensures closed in ClosedNames ==> (r.Success? <==> Progresses(Parse(closed).value, left, right, leafSize, pivotOf))
  {
    var c :- Parse(closed);
    var indices := Range(|left|);
    var root :- NewNode(c, left, right, left, right, indices, leafSize, pivotOf);
    return Success(IntervalTree(left, right, c, root));
  }

  /** Building over (0, 1], (10, 11] with leaf size 1 and pivot 5 ends: each interval goes
      to its own side and becomes a leaf there, so such a tree is built. */
  lemma SplitExample()
    ensures Progresses(Right, [0, 10], [1, 11], 1, (a: seq<int>, b: seq<int>) => 5)
  {
    var pivotOf := (a: seq<int>, b: seq<int>) => 5;
    var left, right := [0, 10], [1, 11];
    var classes := Classes(Right, left, right, 5);
    assert classes == [LeftOf, RightOf];
    assert Positions(classes, LeftOf, 1) == [0] && Positions(classes, RightOf, 1) == [];
    assert Bucketed(Right, left, right, 5, LeftOf) == [0];
    assert Bucketed(Right, left, right, 5, RightOf) == [1];
    assert Take(left, [0]) == [0] && Take(right, [0]) == [1];
    assert Take(left, [1]) == [10] && Take(right, [1]) == [11];
    assert Progresses(Right, [0], [1], 1, pivotOf);
    assert Progresses(Right, [10], [11], 1, pivotOf);
  }

  /** `get_loc`: the positions of the intervals that contain `key`, or `KeyError` when
      there are none. A tree that is a single leaf gives them in increasing order. */
  method GetLoc(t: IntervalTree, key: int) returns (r: Result<seq<int>>)
    requires Valid(t)
    ensures r.Failure? <==> Overlapping(t, key) == []
    ensures r.Failure? ==> r.error == KeyNotFound(key)
    ensures r.Success? ==> multiset(r.value) == multiset(Overlapping(t, key))
    ensures r.Success? && t.root == Leaf(t.left, t.right, Range(|t.left|)) ==> r.value == Overlapping(t, key)
  {
    var result := new Int64Vector();
    Query(t.closed, t.left, t.right, t.root, result, key);
    RootMatchesOverlapping(t, key);
    assert result.data == result.data[0..];
    if |result.data| == 0 {
      return Failure(KeyNotFound(key));
    }
    return Success(result.data);
  }

  /** `self.root.query(result, p)` on a valid tree: appends, in some order, exactly the
      reference answer for p. */
  method QueryTarget(t: IntervalTree, result: Int64Vector, p: int)
    requires Valid(t)
    modifies result
    ensures |old(result.data)| <= |result.data| && result.data[..|old(result.data)|] == old(result.data)
    ensures multiset(result.data[|old(result.data)|..]) == multiset(Overlapping(t, p))
  {
    Query(t.closed, t.left, t.right, t.root, result, p);
    RootMatchesOverlapping(t, p);
  }

  /** What `get_indexer` reports for one target: -1 when no interval contains it, else the
      one interval that does. */
  predicate IndexedAs(t: IntervalTree, p: int, v: int)
    requires |t.left| == |t.right|
  {
    if v == -1 then Overlapping(t, p) == [] else Overlapping(t, p) == [v]
  }

  /** What one query appended decides `get_indexer`'s entry: nothing means -1, a single
      position is the one containing interval. */
  lemma IndexerShare(t: IntervalTree, p: int, share: seq<int>)
    requires |t.left| == |t.right|
    requires multiset(share) == multiset(Overlapping(t, p))
    ensures |share| == |Overlapping(t, p)|
    ensures share == [] ==> IndexedAs(t, p, -1)
    ensures |share| == 1 ==> IndexedAs(t, p, share[0])
  {
    assert |share| == |multiset(share)|;
    if |share| == 1 {
      assert share == [share[0]];
      var o := Overlapping(t, p);
      assert o[0] in multiset(share);
      assert o == [o[0]];
      OverlappingMembers(t, p);
      assert o[0] in o;
    }
  }

  /** One round of `get_indexer`'s loop: query p into the shared result vector, then write
      -1 if nothing was found; `unique` is false when more than one interval was. */
  method IndexerStep(t: IntervalTree, result: Int64Vector, p: int) returns (unique: bool)
    requires Valid(t)
    modifies result
    ensures unique <==> |Overlapping(t, p)| <= 1
    ensures unique ==> exists v :: result.data == old(result.data) + [v] && IndexedAs(t, p, v)
  {
    var oldLen := |result.data|;
    QueryTarget(t, result, p);
    IndexerShare(t, p, result.data[oldLen..]);
    if |result.data| == oldLen {
      result.Append(-1);
      assert result.data == old(result.data) + [-1];
    } else if |result.data| == oldLen + 1 {
      assert result.data == old(result.data) + [result.data[oldLen]];
    }
    unique := |result.data| == oldLen + 1;
  }

  /** `get_indexer`: for each target in turn, the one interval containing it, or -1 when
      none does; `KeyError` as soon as a target lies in more than one. */
  method GetIndexer(t: IntervalTree, target: seq<int>) returns (r: Result<seq<int>>)
    requires Valid(t)
    ensures r.Failure? <==> exists k :: 0 <= k < |target| && |Overlapping(t, target[k])| > 1
    ensures r.Failure? ==> r.error == NotUniqueIntervals
    ensures r.Success? ==> |r.value| == |target|
    ensures r.Success? ==> forall k :: 0 <= k < |target| ==> IndexedAs(t, target[k], r.value[k])
  {
    var result := new Int64Vector();
    for i := 0 to |target|
      invariant |result.data| == i
      invariant forall k :: 0 <= k < i ==> IndexedAs(t, target[k], result.data[k])
      invariant forall k :: 0 <= k < i ==> |Overlapping(t, target[k])| <= 1
    {
      var unique := IndexerStep(t, result, target[i]);
      if !unique {
        return Failure(NotUniqueIntervals);
      }
    }
    return Success(result.data);
  }

  /** What `get_indexer_non_unique` reports for one target whose containing intervals are
      `answer`: those in some order, or a single -1 when there are none. */
  predicate Shared(answer: seq<int>, share: seq<int>) {
    if answer == [] then share == [-1] else multiset(share) == multiset(answer)
  }

  predicate ShareOk(t: IntervalTree, p: int, share: seq<int>)
    requires |t.left| == |t.right|
  {
    Shared(Overlapping(t, p), share)
  }

  /** The shares one after another. */
  function Concat(shares: seq<seq<int>>): seq<int> {
    if shares == [] then [] else Concat(shares[..|shares| - 1]) + shares[|shares| - 1]
  }

  /** `get_indexer_non_unique`: for each target in turn, the intervals containing it (in
      some order) or a single -1, and the ascending list of the targets no interval
      contains. `shares` splits `result` into each target's part. */
  method GetIndexerNonUnique(t: IntervalTree, target: seq<int>)
    returns (result: seq<int>, missing: seq<int>, ghost shares: seq<seq<int>>)
    requires Valid(t)
    ensures |shares| == |target| && result == Concat(shares)
    ensures forall k :: 0 <= k < |target| ==> ShareOk(t, target[k], shares[k])
    ensures StrictlyIncreasing(missing)
    ensures forall k :: k in missing <==> 0 <= k < |target| && Overlapping(t, target[k]) == []
  {
    ghost var answers := seq(|target|, k requires 0 <= k < |target| => Overlapping(t, target[k]));
    var acc := new Int64Vector();
    var missingVec := new Int64Vector();
    shares := [];
    for i := 0 to |target|
      invariant acc != missingVec
      invariant acc.data == Concat(shares) && |shares| == i
      invariant forall k :: 0 <= k < i ==> Shared(answers[k], shares[k])
      invariant StrictlyIncreasing(missingVec.data) && InBounds(missingVec.data, i)
      invariant forall k :: k in missingVec.data <==> 0 <= k < i && answers[k] == []
    {
      ghost var missingBefore := missingVec.data;
      ghost var share := NonUniqueStep(t, acc, missingVec, target[i], i);
      assert answers[i] == Overlapping(t, target[i]);
      ConcatSnoc(shares, share);
      SharesExtend(answers, shares, share);
      MissingExtends(answers, missingBefore, i);
      shares := shares + [share];
    }
    result, missing := acc.data, missingVec.data;
  }

  /** One round of `get_indexer_non_unique`'s loop: query target i, then record -1 and i
      when the query appended nothing. */
  method NonUniqueStep(t: IntervalTree, acc: Int64Vector, missingVec: Int64Vector, p: int, i: int)
    returns (ghost share: seq<int>)
    requires Valid(t) && acc != missingVec
    modifies acc, missingVec
    ensures acc.data == old(acc.data) + share && Shared(Overlapping(t, p), share)
    ensures missingVec.data == old(missingVec.data) + (if Overlapping(t, p) == [] then [i] else [])
  {
    var oldLen := |acc.data|;
    QueryTarget(t, acc, p);
    ghost var got := acc.data[oldLen..];
    share := if got == [] then [-1] else got;
    NonUniqueShare(Overlapping(t, p), got);
    if |acc.data| == oldLen {
      acc.Append(-1);
      missingVec.Append(i);
    } else {
      assert acc.data == old(acc.data) + got;
    }
  }

  /** The loop invariant on the shares survives one more round. */
  lemma SharesExtend(answers: seq<seq<int>>, shares: seq<seq<int>>, share: seq<int>)
    requires |shares| < |answers| && Shared(answers[|shares|], share)
    requires forall k :: 0 <= k < |shares| ==> Shared(answers[k], shares[k])
    ensures forall k :: 0 <= k <= |shares| ==> Shared(answers[k], (shares + [share])[k])
  {
  }

  /** The loop invariant on the missing targets survives one more round. */
  lemma MissingExtends(answers: seq<seq<int>>, before: seq<int>, i: int)
    requires 0 <= i < |answers|
    requires StrictlyIncreasing(before) && InBounds(before, i)
    requires forall k :: k in before <==> 0 <= k < i && answers[k] == []
    ensures var after := before + (if answers[i] == [] then [i] else []);
            && StrictlyIncreasing(after) && InBounds(after, i + 1)
            && forall k :: k in after <==> 0 <= k < i + 1 && answers[k] == []
  {
  }

  /** One more share extends the concatenation by that share. */
  lemma ConcatSnoc(shares: seq<seq<int>>, s: seq<int>)
    ensures Concat(shares + [s]) == Concat(shares) + s
  {
    assert (shares + [s])[..|shares|] == shares;
  }

  /** What one query appended decides `get_indexer_non_unique`'s share: nothing appended
      (exactly when no interval contains p) becomes -1. */
  lemma NonUniqueShare(answer: seq<int>, got: seq<int>)
    requires multiset(got) == multiset(answer)
    ensures got == [] <==> answer == []
    ensures Shared(answer, if got == [] then [-1] else got)
  {
    assert |got| == |multiset(got)| == |multiset(answer)| == |answer|;
  }

  /** The positions between two search results over a sort order are exactly those whose
      value lies in [lo, hi). */
  lemma WindowMembers(values: seq<int>, sorter: seq<int>, lo: int, hi: int, i: int, j: int)
    requires InBounds(sorter, |values|) && multiset(sorter) == multiset(Range(|values|))
    requires 0 <= i <= |sorter| && 0 <= j <= |sorter|
    requires forall k :: 0 <= k < i ==> values[sorter[k]] < lo
    requires forall k :: i <= k < |sorter| ==> lo <= values[sorter[k]]
    requires forall k :: 0 <= k < j ==> values[sorter[k]] < hi
    requires forall k :: j <= k < |sorter| ==> hi <= values[sorter[k]]
    ensures var w := if i <= j then sorter[i..j] else [];
            forall p :: p in w <==> 0 <= p < |values| && lo <= values[p] < hi
  {
    var w := if i <= j then sorter[i..j] else [];
    forall p ensures p in w <==> 0 <= p < |values| && lo <= values[p] < hi {
      if p in w {
        var q :| i <= q < j && sorter[q] == p;
      }
      if 0 <= p < |values| && lo <= values[p] < hi {
        PermutationHas(sorter, |values|, p);
        var q :| 0 <= q < |sorter| && sorter[q] == p;
        assert w[q - i] == p;
      }
    }
  }

  /** A permutation of 0 .. n-1 lists every position below n. */
  lemma PermutationHas(sorter: seq<int>, n: nat, p: int)
    requires multiset(sorter) == multiset(Range(n)) && 0 <= p < n
    ensures p in sorter
  {
    assert Range(n)[p] == p;
    assert p in multiset(Range(n));
  }

  /** A permutation of 0 .. n-1 lists no position twice. */
  lemma PermutationDistinct(sorter: seq<int>, n: nat, a: int, b: int)
    requires multiset(sorter) == multiset(Range(n)) && 0 <= a < b < |sorter|
    ensures sorter[a] != sorter[b]
  {
    if sorter[a] == sorter[b] {
      var x := sorter[a];
      assert sorter == sorter[..b] + sorter[b..];
      assert sorter[..b][a] == x && sorter[b..][0] == x;
      assert multiset(sorter)[x] == multiset(sorter[..b])[x] + multiset(sorter[b..])[x];
      RangeCount(n, x);
      assert false;
    }
  }

  /** A stretch of a permutation of 0 .. n-1 lists no position twice. */
  lemma WindowDistinct(sorter: seq<int>, n: nat, i: int, j: int)
    requires multiset(sorter) == multiset(Range(n)) && 0 <= i <= j <= |sorter|
    ensures forall a, b :: 0 <= a < b < j - i ==> sorter[i..j][a] != sorter[i..j][b]
  {
    forall a, b | 0 <= a < b < j - i ensures sorter[i..j][a] != sorter[i..j][b] {
      PermutationDistinct(sorter, n, i + a, i + b);
    }
  }

  /** A stretch of a sort permutation visits its values in ascending order. */
  lemma WindowSorted(values: seq<int>, sorter: seq<int>, i: int, j: int)
    requires InBounds(sorter, |values|) && SortedBy(values, sorter) && 0 <= i <= j <= |sorter|
    ensures InBounds(sorter[i..j], |values|) && Ascending(Take(values, sorter[i..j]))
  {
    var w := sorter[i..j];
    forall a, b | 0 <= a < b < |w| ensures Take(values, w)[a] <= Take(values, w)[b] {
      assert w[a] == sorter[i + a] && w[b] == sorter[i + b];
    }
  }

  /** `_get_partial_overlap`: the positions whose left bound (side "left") or right bound
      (any other side) lies in [keyLeft, keyRight), found by two binary searches over the
      bound's sort order; they come in ascending order of that bound. */
  method GetPartialOverlap(t: IntervalTree, keyLeft: int, keyRight: int, side: string) returns (r: seq<int>)
    ensures var values := if side == "left" then t.left else t.right;
            && InBounds(r, |values|)
            && (forall p :: p in r <==> 0 <= p < |values| && keyLeft <= values[p] < keyRight)
            && Ascending(Take(values, r))
    ensures forall a, b :: 0 <= a < b < |r| ==> r[a] != r[b]
  {
    var values := if side == "left" then t.left else t.right;
    var sorter := ArgSort(values);
    var i := SearchSorted(values, sorter, keyLeft);
    var j := SearchSorted(values, sorter, keyRight);
    WindowMembers(values, sorter, keyLeft, keyRight, i, j);
    if i <= j {
      WindowSorted(values, sorter, i, j);
    }
    r := if i <= j then sorter[i..j] else [];
    if i <= j {
      WindowDistinct(sorter, |values|, i, j);
    }
  }

  /** A worked example of the comparator table: for the right-closed intervals (0, 2],
      (1, 3], (5, 7], the point 1 lies only in the first, the point 2 in the first two, and
      the point 4 in none. */
  lemma RightClosedExample()
    ensures var t := IntervalTree([0, 1, 5], [2, 3, 7], Right, Leaf([0, 1, 5], [2, 3, 7], [0, 1, 2]));
            Overlapping(t, 1) == [0] && Overlapping(t, 2) == [0, 1] && Overlapping(t, 4) == []
  {
    var t := IntervalTree([0, 1, 5], [2, 3, 7], Right, Leaf([0, 1, 5], [2, 3, 7], [0, 1, 2]));
    assert Range(3) == [0, 1, 2];
    assert [0, 1, 2][..2] == [0, 1] && [0, 1][..1] == [0] && [0][..0] == [];
  }
}
