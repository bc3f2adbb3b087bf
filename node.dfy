/** IntervalNode: one node of the centered interval tree, for one closure mode. */
module Nodes {
  import opened Results
  import opened Closure
  import opened Vectors
  import opened Sorting

  /** A node never changes after it is built. A leaf keeps its intervals as given; an inner
      node keeps a pivot, the subtrees left and right of it, and the intervals that contain
      the pivot twice over: sorted by left bound and sorted by right bound. */
  datatype IntervalNode =
    | Leaf(left: seq<int>, right: seq<int>, indices: seq<int>)
    | Internal(pivot: int, leftNode: IntervalNode, rightNode: IntervalNode,
               centerLeftValues: seq<int>, centerLeftIndices: seq<int>,
               centerRightValues: seq<int>, centerRightIndices: seq<int>)

  /** The original positions a node holds, the whole subtree included. */
  function Members(node: IntervalNode): seq<int> {
    match node
    case Leaf(_, _, ids) => ids
    case Internal(_, ln, rn, _, cli, _, _) => Members(ln) + cli + Members(rn)
  }

  // ---------------------------------------------------------------------------
  // The specification: a brute-force containment filter.

  /** The ids, in order, whose interval (L[id], R[id]) contains p. */
  function Matching(c: Closed, L: seq<int>, R: seq<int>, ids: seq<int>, p: int): (r: seq<int>)
    requires |L| == |R| && InBounds(ids, |L|)
    ensures |r| <= |ids|
    decreases |ids|
  {
    if ids == [] then []
    else
      var last := ids[|ids| - 1];
      Matching(c, L, R, ids[..|ids| - 1], p) + (if Contains(c, L[last], R[last], p) then [last] else [])
  }

  /** The filter keeps exactly the ids whose interval contains p. */
  lemma {:induction false} MatchingMembers(c: Closed, L: seq<int>, R: seq<int>, ids: seq<int>, p: int)
    requires |L| == |R| && InBounds(ids, |L|)
    ensures forall id :: id in Matching(c, L, R, ids, p) <==> id in ids && Contains(c, L[id], R[id], p)
    decreases |ids|
  {
    if ids != [] {
      var front := ids[..|ids| - 1];
      MatchingMembers(c, L, R, front, p);
      assert ids == front + [ids[|ids| - 1]];
    }
  }

  /** Filtering keeps the order: from ascending ids come ascending matches. */
  lemma {:induction false} MatchingIncreasing(c: Closed, L: seq<int>, R: seq<int>, ids: seq<int>, p: int)
    requires |L| == |R| && InBounds(ids, |L|)
    requires StrictlyIncreasing(ids)
    ensures StrictlyIncreasing(Matching(c, L, R, ids, p))
    decreases |ids|
  {
    if ids != [] {
      var n := |ids|;
      var front := ids[..n - 1];
      MatchingIncreasing(c, L, R, front, p);
      MatchingMembers(c, L, R, front, p);
      var m := Matching(c, L, R, front, p);
      forall i | 0 <= i < |m| ensures m[i] < ids[n - 1] {
        assert m[i] in m;
        assert m[i] in front;
        var j :| 0 <= j < |front| && front[j] == m[i];
        assert ids[j] == m[i];
      }
    }
  }

  lemma {:induction false} MatchingAppend(c: Closed, L: seq<int>, R: seq<int>, a: seq<int>, b: seq<int>, p: int)
    requires |L| == |R| && InBounds(a, |L|) && InBounds(b, |L|)
    ensures InBounds(a + b, |L|)
    ensures Matching(c, L, R, a + b, p) == Matching(c, L, R, a, p) + Matching(c, L, R, b, p)
    decreases |b|
  {
    if b == [] {
      assert a + b == a;
    } else {
      var front := b[..|b| - 1];
      assert (a + b)[..|a + b| - 1] == a + front;
      MatchingAppend(c, L, R, a, front, p);
    }
  }

  lemma {:induction false} MatchingAll(c: Closed, L: seq<int>, R: seq<int>, ids: seq<int>, p: int)
    requires |L| == |R| && InBounds(ids, |L|)
    requires forall k :: 0 <= k < |ids| ==> Contains(c, L[ids[k]], R[ids[k]], p)
    ensures Matching(c, L, R, ids, p) == ids
    decreases |ids|
  {
    if ids != [] {
      var front, last := ids[..|ids| - 1], ids[|ids| - 1];
      forall k | 0 <= k < |front| ensures Contains(c, L[front[k]], R[front[k]], p) {
        assert front[k] == ids[k];
      }
      MatchingAll(c, L, R, front, p);
      assert ids == front + [last];
    }
  }

  lemma {:induction false} MatchingNone(c: Closed, L: seq<int>, R: seq<int>, ids: seq<int>, p: int)
    requires |L| == |R| && InBounds(ids, |L|)
    requires forall k :: 0 <= k < |ids| ==> !Contains(c, L[ids[k]], R[ids[k]], p)
    ensures Matching(c, L, R, ids, p) == []
    decreases |ids|
  {
    if ids != [] {
      var front := ids[..|ids| - 1];
      assert forall k :: 0 <= k < |front| ==> front[k] == ids[k];
      MatchingNone(c, L, R, front, p);
    }
  }

  /** How often x survives the filter: as often as it occurs, or never. */
  lemma {:induction false} MatchingCount(c: Closed, L: seq<int>, R: seq<int>, ids: seq<int>, p: int, x: int)
    requires |L| == |R| && InBounds(ids, |L|)
    ensures multiset(Matching(c, L, R, ids, p))[x] ==
            if 0 <= x < |L| && Contains(c, L[x], R[x], p) then multiset(ids)[x] else 0
    decreases |ids|
  {
    if ids == [] {
    } else {
      var front := ids[..|ids| - 1];
      assert ids == front + [ids[|ids| - 1]];
      MatchingCount(c, L, R, front, p, x);
      if !(0 <= x < |L|) {
        assert x !in ids;
      }
    }
  }

  /** The filter does not depend on the order of the ids, only on how often each occurs. */
  lemma MatchingMultiset(c: Closed, L: seq<int>, R: seq<int>, a: seq<int>, b: seq<int>, p: int)
    requires |L| == |R| && InBounds(a, |L|) && InBounds(b, |L|)
    requires multiset(a) == multiset(b)
    ensures multiset(Matching(c, L, R, a, p)) == multiset(Matching(c, L, R, b, p))
  {
    forall x ensures multiset(Matching(c, L, R, a, p))[x] == multiset(Matching(c, L, R, b, p))[x] {
      MatchingCount(c, L, R, a, p, x);
      MatchingCount(c, L, R, b, p, x);
    }
  }

  // ---------------------------------------------------------------------------
  // Classification.

  /** Where an interval lies relative to a pivot. */
  datatype Bucket = LeftOf | RightOf | Center

  /** The per-interval rule of `classify_intervals`, written with the converse comparators
      as the source writes it. */
  function BucketOf(c: Closed, l: int, r: int, pivot: int): (b: Bucket)
    ensures b == Center <==> Contains(c, l, r, pivot)
  {
    if Holds(Converse(CmpRight(c)), r, pivot) then LeftOf
    else if Holds(Converse(CmpLeft(c)), pivot, l) then RightOf
    else Center
  }

  /** An interval is left of the pivot when the pivot is beyond its right bound, right of
      it when the pivot is before its left bound, and in the center otherwise, which is
      exactly when it contains the pivot. */
  lemma BucketOfMeaning(c: Closed, l: int, r: int, pivot: int)
    ensures BucketOf(c, l, r, pivot) == LeftOf <==> !Holds(CmpRight(c), pivot, r)
    ensures BucketOf(c, l, r, pivot) == RightOf <==> Holds(CmpRight(c), pivot, r) && !Holds(CmpLeft(c), l, pivot)
    ensures BucketOf(c, l, r, pivot) == Center <==> Contains(c, l, r, pivot)
  {
  }

  /** The bucket of each interval, position by position. */
  function Classes(c: Closed, left: seq<int>, right: seq<int>, pivot: int): (bs: seq<Bucket>)
    requires |left| == |right|
    ensures |bs| == |left|
  {
    seq(|left|, i requires 0 <= i < |left| => BucketOf(c, left[i], right[i], pivot))
  }

  /** The positions among the first n, in increasing order, whose label is b. */
  function Positions(bs: seq<Bucket>, b: Bucket, n: nat): seq<int>
    requires n <= |bs|
  {
    if n == 0 then []
    else if bs[n - 1] == b then Positions(bs, b, n - 1) + [n - 1]
    else Positions(bs, b, n - 1)
  }

  /** The positions the classification puts in bucket b, in increasing order. */
  function Bucketed(c: Closed, left: seq<int>, right: seq<int>, pivot: int, b: Bucket): seq<int>
    requires |left| == |right|
  {
    Positions(Classes(c, left, right, pivot), b, |left|)
  }

  /** The positions labelled b are listed once each, in increasing order. */
  lemma {:induction false} PositionsMembers(bs: seq<Bucket>, b: Bucket, n: nat)
    requires n <= |bs|
    ensures InBounds(Positions(bs, b, n), n)
    ensures StrictlyIncreasing(Positions(bs, b, n))
    ensures forall i :: i in Positions(bs, b, n) <==> 0 <= i < n && bs[i] == b
  {
    if n > 0 {
      PositionsMembers(bs, b, n - 1);
    }
  }

  /** Each bucket lists, in increasing order, exactly the positions whose interval falls in it. */
  lemma BucketedMembers(c: Closed, left: seq<int>, right: seq<int>, pivot: int, b: Bucket)
    requires |left| == |right|
    ensures InBounds(Bucketed(c, left, right, pivot, b), |left|)
    ensures StrictlyIncreasing(Bucketed(c, left, right, pivot, b))
    ensures forall i :: i in Bucketed(c, left, right, pivot, b) <==>
              0 <= i < |left| && BucketOf(c, left[i], right[i], pivot) == b
  {
    PositionsMembers(Classes(c, left, right, pivot), b, |left|);
  }

  /** A position occurs once among those of its own label and nowhere else. */
  lemma {:induction false} PositionsCount(bs: seq<Bucket>, b: Bucket, n: nat, x: int)
    requires n <= |bs|
    ensures multiset(Positions(bs, b, n))[x] == if 0 <= x < n && bs[x] == b then 1 else 0
  {
    if n > 0 {
      PositionsCount(bs, b, n - 1, x);
      if bs[n - 1] == b {
        CountSnoc(Positions(bs, b, n - 1), n - 1, x);
      }
    }
  }

  /** Every position carries exactly one of the three labels. */
  lemma PositionsPartition(bs: seq<Bucket>, n: nat)
    requires n <= |bs|
    ensures multiset(Positions(bs, LeftOf, n)) + multiset(Positions(bs, Center, n))
            + multiset(Positions(bs, RightOf, n)) == multiset(Range(n))
  {
    var A, B, D := multiset(Positions(bs, LeftOf, n)), multiset(Positions(bs, Center, n)),
                   multiset(Positions(bs, RightOf, n));
    forall x ensures (A + B + D)[x] == multiset(Range(n))[x] {
      PositionsCount(bs, LeftOf, n, x);
      PositionsCount(bs, Center, n, x);
      PositionsCount(bs, RightOf, n, x);
      RangeCount(n, x);
    }
    assert A + B + D == multiset(Range(n));
  }

  /** `classify_intervals`: one pass over the node's intervals that appends each position
      to the left, right or overlapping list. */
  method ClassifyIntervals(c: Closed, left: seq<int>, right: seq<int>, pivot: int)
    returns (leftInd: seq<int>, rightInd: seq<int>, overlappingInd: seq<int>)
    requires |left| == |right|
    ensures leftInd == Bucketed(c, left, right, pivot, LeftOf)
    ensures rightInd == Bucketed(c, left, right, pivot, RightOf)
    ensures overlappingInd == Bucketed(c, left, right, pivot, Center)
  {
    var nElements := |left|;
    leftInd, rightInd, overlappingInd := [], [], [];
    var i := 0;
    while i < nElements
      invariant 0 <= i <= nElements
      invariant leftInd == Positions(Classes(c, left, right, pivot), LeftOf, i)
      invariant rightInd == Positions(Classes(c, left, right, pivot), RightOf, i)
      invariant overlappingInd == Positions(Classes(c, left, right, pivot), Center, i)
    {
      if Holds(Converse(CmpRight(c)), right[i], pivot) {
        leftInd := leftInd + [i];
      } else if Holds(Converse(CmpLeft(c)), pivot, left[i]) {
        rightInd := rightInd + [i];
      } else {
        overlappingInd := overlappingInd + [i];
      }
      i := i + 1;
    }
  }

  // ---------------------------------------------------------------------------
  // What a built node guarantees.

  /** The invariant construction establishes, stated against the tree's original bound
      arrays L and R: every id a node stores is an original position, every stored bound
      is the original bound at that id, the center intervals contain the pivot and are
      sorted by each bound, and no interval of the left (right) subtree reaches the pivot
      from the left (right). */
  ghost predicate NodeValid(c: Closed, L: seq<int>, R: seq<int>, node: IntervalNode)
    ensures NodeValid(c, L, R, node) ==> InBounds(Members(node), |L|)
    decreases node
  {
    |L| == |R| &&
    match node
    case Leaf(lv, rv, ids) =>
      && |lv| == |ids| && |rv| == |ids| && InBounds(ids, |L|)
      && (forall k :: 0 <= k < |ids| ==> lv[k] == L[ids[k]] && rv[k] == R[ids[k]])
    case Internal(pivot, ln, rn, clv, cli, crv, cri) =>
      && NodeValid(c, L, R, ln) && NodeValid(c, L, R, rn)
      && |clv| == |cli| && |crv| == |cli| && |cri| == |cli|
      && InBounds(cli, |L|) && InBounds(cri, |L|)
      && (forall k :: 0 <= k < |cli| ==> clv[k] == L[cli[k]] && Contains(c, L[cli[k]], R[cli[k]], pivot))
      && (forall k :: 0 <= k < |cri| ==> crv[k] == R[cri[k]])
      && Ascending(clv) && Ascending(crv)
      && multiset(cli) == multiset(cri)
      && (forall id :: id in Members(ln) ==> !Holds(CmpRight(c), pivot, R[id]))
      && (forall id :: id in Members(rn) ==> !Holds(CmpLeft(c), L[id], pivot))
  }

  // ---------------------------------------------------------------------------
  // Why the query may stop early and skip subtrees.

  /** A point left of the pivot meets no interval of the right subtree, a point right of
      it none of the left subtree, and the pivot itself neither. */
  lemma ChildrenPruned(c: Closed, L: seq<int>, R: seq<int>, node: IntervalNode, point: int)
    requires NodeValid(c, L, R, node) && node.Internal?
    ensures point <= node.pivot ==> Matching(c, L, R, Members(node.rightNode), point) == []
    ensures point >= node.pivot ==> Matching(c, L, R, Members(node.leftNode), point) == []
  {
    var rm, lm := Members(node.rightNode), Members(node.leftNode);
    if point <= node.pivot {
      forall k | 0 <= k < |rm| ensures !Contains(c, L[rm[k]], R[rm[k]], point) {
        assert rm[k] in rm;
      }
      MatchingNone(c, L, R, rm, point);
    }
    if point >= node.pivot {
      forall k | 0 <= k < |lm| ensures !Contains(c, L[lm[k]], R[lm[k]], point) {
        assert lm[k] in lm;
      }
      MatchingNone(c, L, R, lm, point);
    }
  }

  /** Every center interval contains the pivot. */
  lemma CenterAtPivot(c: Closed, L: seq<int>, R: seq<int>, node: IntervalNode)
    requires NodeValid(c, L, R, node) && node.Internal?
    ensures Matching(c, L, R, node.centerLeftIndices, node.pivot) == node.centerLeftIndices
  {
    MatchingAll(c, L, R, node.centerLeftIndices, node.pivot);
  }

  /** The right-sorted center array holds intervals that contain the pivot too. */
  lemma CenterRightAtPivot(c: Closed, L: seq<int>, R: seq<int>, node: IntervalNode)
    requires NodeValid(c, L, R, node) && node.Internal?
    ensures forall k :: 0 <= k < |node.centerRightIndices| ==>
              Contains(c, L[node.centerRightIndices[k]], R[node.centerRightIndices[k]], node.pivot)
  {
    var cli, cri := node.centerLeftIndices, node.centerRightIndices;
    forall k | 0 <= k < |cri| ensures Contains(c, L[cri[k]], R[cri[k]], node.pivot) {
      assert cri[k] in multiset(cli);
      var j :| 0 <= j < |cli| && cli[j] == cri[k];
    }
  }

  /** A point before one left bound is before every larger one too. */
  lemma LeftBoundMiss(c: Closed, point: int, l: int, l2: int)
    requires l <= l2 && !Holds(CmpLeft(c), l, point)
    ensures !Holds(CmpLeft(c), l2, point)
  {
  }

  /** Below the pivot, an interval containing the pivot contains the point when its left
      bound admits it. */
  lemma ContainsBelowPivot(c: Closed, l: int, r: int, pivot: int, point: int)
    requires Contains(c, l, r, pivot) && point < pivot
    ensures Contains(c, l, r, point) <==> Holds(CmpLeft(c), l, point)
  {
  }

  /** Above the pivot, an interval containing the pivot contains the point when its right
      bound admits it. */
  lemma ContainsAbovePivot(c: Closed, l: int, r: int, pivot: int, point: int)
    requires Contains(c, l, r, pivot) && point > pivot
    ensures Contains(c, l, r, point) <==> Holds(CmpRight(c), point, r)
  {
  }

  /** Left of the pivot, an interval that contains the pivot contains the point exactly
      when its left bound does; as the left bounds ascend, the matches are the prefix
      before the first miss. */
  lemma LeftPrefixMatches(c: Closed, L: seq<int>, R: seq<int>, pivot: int, values: seq<int>, ids: seq<int>,
                          point: int, i: int)
    requires |L| == |R| && InBounds(ids, |L|) && |values| == |ids| && Ascending(values)
    requires forall k :: 0 <= k < |ids| ==> values[k] == L[ids[k]] && Contains(c, L[ids[k]], R[ids[k]], pivot)
    requires point < pivot && 0 <= i <= |ids|
    requires forall k :: 0 <= k < i ==> Holds(CmpLeft(c), values[k], point)
    requires i < |ids| ==> !Holds(CmpLeft(c), values[i], point)
    ensures Matching(c, L, R, ids, point) == ids[..i]
  {
    var hit, miss := ids[..i], ids[i..];
    assert ids == hit + miss;
    forall k | 0 <= k < |hit| ensures Contains(c, L[hit[k]], R[hit[k]], point) {
      assert hit[k] == ids[k];
      ContainsBelowPivot(c, L[hit[k]], R[hit[k]], pivot, point);
    }
    forall k | 0 <= k < |miss| ensures !Contains(c, L[miss[k]], R[miss[k]], point) {
      assert miss[k] == ids[i + k];
      ContainsBelowPivot(c, L[miss[k]], R[miss[k]], pivot, point);
      LeftBoundMiss(c, point, values[i], values[i + k]);
    }
    MatchingAll(c, L, R, hit, point);
    MatchingNone(c, L, R, miss, point);
    MatchingAppend(c, L, R, hit, miss, point);
  }

  /** The forward scan of the left-sorted center array finds exactly its matches. */
  lemma LeftScanMatches(c: Closed, L: seq<int>, R: seq<int>, node: IntervalNode, point: int, i: int)
    requires NodeValid(c, L, R, node) && node.Internal? && point < node.pivot
    requires 0 <= i <= |node.centerLeftIndices|
    requires forall k :: 0 <= k < i ==> Holds(CmpLeft(c), node.centerLeftValues[k], point)
    requires i < |node.centerLeftIndices| ==> !Holds(CmpLeft(c), node.centerLeftValues[i], point)
    ensures Matching(c, L, R, node.centerLeftIndices, point) == node.centerLeftIndices[..i]
  {
    LeftPrefixMatches(c, L, R, node.pivot, node.centerLeftValues, node.centerLeftIndices, point, i);
  }

  /** A point beyond one right bound is beyond every smaller one too. */
  lemma RightBoundMiss(c: Closed, point: int, r: int, r2: int)
    requires r <= r2 && !Holds(CmpRight(c), point, r2)
    ensures !Holds(CmpRight(c), point, r)
  {
  }

  /** Right of the pivot, an interval that contains the pivot contains the point exactly
      when its right bound does; as the right bounds ascend, the matches are the suffix
      after the last miss. */
  lemma RightSuffixMatches(c: Closed, L: seq<int>, R: seq<int>, pivot: int, values: seq<int>, ids: seq<int>,
                           point: int, i: int)
    requires |L| == |R| && InBounds(ids, |L|) && |values| == |ids| && Ascending(values)
    requires forall k :: 0 <= k < |ids| ==> values[k] == R[ids[k]] && Contains(c, L[ids[k]], R[ids[k]], pivot)
    requires point > pivot && 0 <= i <= |ids|
    requires forall k :: i <= k < |ids| ==> Holds(CmpRight(c), point, values[k])
    requires 0 < i ==> !Holds(CmpRight(c), point, values[i - 1])
    ensures Matching(c, L, R, ids, point) == ids[i..]
  {
    var miss, hit := ids[..i], ids[i..];
    assert ids == miss + hit;
    forall k | 0 <= k < |hit| ensures Contains(c, L[hit[k]], R[hit[k]], point) {
      assert hit[k] == ids[i + k];
      ContainsAbovePivot(c, L[hit[k]], R[hit[k]], pivot, point);
    }
    forall k | 0 <= k < |miss| ensures !Contains(c, L[miss[k]], R[miss[k]], point) {
      assert miss[k] == ids[k];
      ContainsAbovePivot(c, L[miss[k]], R[miss[k]], pivot, point);
      RightBoundMiss(c, point, values[k], values[i - 1]);
    }
    MatchingAll(c, L, R, hit, point);
    MatchingNone(c, L, R, miss, point);
    MatchingAppend(c, L, R, miss, hit, point);
  }

  /** The backward scan finds the same intervals, counted with multiplicity, as a forward
      filter of the left-sorted array: both arrays hold the one center set. */
  lemma RightScanMatches(c: Closed, L: seq<int>, R: seq<int>, node: IntervalNode, point: int, i: int)
    requires NodeValid(c, L, R, node) && node.Internal? && point > node.pivot
    requires 0 <= i <= |node.centerRightIndices|
    requires forall k :: i <= k < |node.centerRightIndices| ==> Holds(CmpRight(c), point, node.centerRightValues[k])
    requires 0 < i ==> !Holds(CmpRight(c), point, node.centerRightValues[i - 1])
    ensures multiset(Matching(c, L, R, node.centerLeftIndices, point)) == multiset(node.centerRightIndices[i..])
  {
    CenterRightAtPivot(c, L, R, node);
    RightSuffixMatches(c, L, R, node.pivot, node.centerRightValues, node.centerRightIndices, point, i);
    MatchingMultiset(c, L, R, node.centerLeftIndices, node.centerRightIndices, point);
  }

  // ---------------------------------------------------------------------------
  // The query.

  /** The leaf's linear scan: appends the ids of the intervals that contain the point, in
      position order. */
  method ScanLeaf(c: Closed, ghost L: seq<int>, ghost R: seq<int>, lv: seq<int>, rv: seq<int>, ids: seq<int>,
                  result: Int64Vector, point: int)
    requires |L| == |R| && InBounds(ids, |L|) && |lv| == |ids| && |rv| == |ids|
    requires forall k :: 0 <= k < |ids| ==> lv[k] == L[ids[k]] && rv[k] == R[ids[k]]
    modifies result
    ensures result.data == old(result.data) + Matching(c, L, R, ids, point)
  {
    var i := 0;
    while i < |ids|
      invariant 0 <= i <= |ids|
      invariant result.data == old(result.data) + Matching(c, L, R, ids[..i], point)
    {
      assert ids[..i + 1][..i] == ids[..i];
      if Holds(CmpLeft(c), lv[i], point) && Holds(CmpRight(c), point, rv[i]) {
        result.Append(ids[i]);
      }
      i := i + 1;
    }
    assert ids[..|ids|] == ids;
  }

  /** The forward scan of the left-sorted center array: appends ids while their left bound
      admits the point, and reports where it stopped. */
  method ScanCenterLeft(c: Closed, values: seq<int>, indices: seq<int>, result: Int64Vector, point: int)
    returns (i: int)
    requires |values| == |indices|
    modifies result
    ensures 0 <= i <= |indices|
    ensures result.data == old(result.data) + indices[..i]
    ensures forall k :: 0 <= k < i ==> Holds(CmpLeft(c), values[k], point)
    ensures i < |indices| ==> !Holds(CmpLeft(c), values[i], point)
  {
    i := 0;
    while i < |indices|
      invariant 0 <= i <= |indices|
      invariant result.data == old(result.data) + indices[..i]
      invariant forall k :: 0 <= k < i ==> Holds(CmpLeft(c), values[k], point)
    {
      if !Holds(CmpLeft(c), values[i], point) {
        break;
      }
      result.Append(indices[i]);
      i := i + 1;
    }
  }

  /** The backward scan of the right-sorted center array: appends ids, from the last one,
      while their right bound admits the point, and reports where it stopped. */
  method ScanCenterRight(c: Closed, values: seq<int>, indices: seq<int>, result: Int64Vector, point: int)
    returns (i: int)
    requires |values| == |indices|
    modifies result
    ensures 0 <= i <= |indices|
    ensures |old(result.data)| <= |result.data| && result.data[..|old(result.data)|] == old(result.data)
    ensures result.data == old(result.data) + Reversed(indices[i..])
    ensures multiset(result.data[|old(result.data)|..]) == multiset(indices[i..])
    ensures forall k :: i <= k < |indices| ==> Holds(CmpRight(c), point, values[k])
    ensures 0 < i ==> !Holds(CmpRight(c), point, values[i - 1])
  {
    var j := |indices| - 1;
    ghost var added: seq<int> := [];
    while j >= 0
      invariant -1 <= j < |indices|
      invariant result.data == old(result.data) + added
      invariant added == Reversed(indices[j + 1..])
      invariant forall k :: j < k < |indices| ==> Holds(CmpRight(c), point, values[k])
    {
      if !Holds(CmpRight(c), point, values[j]) {
        break;
      }
      result.Append(indices[j]);
      assert indices[j..][1..] == indices[j + 1..];
      added := added + [indices[j]];
      j := j - 1;
    }
    i := j + 1;
    assert result.data[|old(result.data)|..] == added;
    ReversedMultiset(indices[i..]);
  }

  /** `query`: appends to `result` the original position of every interval under this node
      that contains `point`, leaving what `result` held untouched. A leaf appends them in
      its own order; at the pivot the left-sorted center array is appended whole. */
  method Query(c: Closed, ghost L: seq<int>, ghost R: seq<int>, node: IntervalNode, result: Int64Vector, point: int)
    requires NodeValid(c, L, R, node)
    modifies result
    ensures |old(result.data)| <= |result.data| && result.data[..|old(result.data)|] == old(result.data)
    ensures multiset(result.data[|old(result.data)|..]) == multiset(Matching(c, L, R, Members(node), point))
    ensures node.Leaf? ==> result.data == old(result.data) + Matching(c, L, R, node.indices, point)
    ensures node.Internal? && point == node.pivot ==> result.data == old(result.data) + node.centerLeftIndices
    decreases node
  {
    ghost var before := result.data;
    if node.Leaf? {
      ScanLeaf(c, L, R, node.left, node.right, node.indices, result, point);
      assert result.data[|before|..] == Matching(c, L, R, node.indices, point);
    } else {
      InternalQuery(c, L, R, node, result, point);
    }
  }

  /** Two appends in a row: first a permutation of `first`, then one of `second`. */
  lemma AppendedTwice(before: seq<int>, mid: seq<int>, after: seq<int>, first: seq<int>, second: seq<int>)
    requires |before| <= |mid| && mid[..|before|] == before && multiset(mid[|before|..]) == multiset(first)
    requires |mid| <= |after| && after[..|mid|] == mid && multiset(after[|mid|..]) == multiset(second)
    ensures |before| <= |after| && after[..|before|] == before
    ensures multiset(after[|before|..]) == multiset(first) + multiset(second)
  {
    assert after[|before|..] == mid[|before|..] + after[|mid|..];
  }

  /** `query` on an inner node for a point left of the pivot: the center intervals that
      start early enough, then the left subtree. */
  method QueryBelowPivot(c: Closed, ghost L: seq<int>, ghost R: seq<int>, node: IntervalNode, result: Int64Vector, point: int)
    requires NodeValid(c, L, R, node) && node.Internal? && point < node.pivot
    modifies result
    ensures |old(result.data)| <= |result.data| && result.data[..|old(result.data)|] == old(result.data)
    ensures multiset(result.data[|old(result.data)|..]) == multiset(Matching(c, L, R, Members(node), point))
    decreases node, 0
  {
    MatchingInternal(c, L, R, node, point);
    ChildrenPruned(c, L, R, node, point);
    ghost var before := result.data;
    var i := ScanCenterLeft(c, node.centerLeftValues, node.centerLeftIndices, result, point);
    LeftScanMatches(c, L, R, node, point, i);
    ghost var mid := result.data;
    Query(c, L, R, node.leftNode, result, point);
    AppendedTwice(before, mid, result.data, Matching(c, L, R, node.centerLeftIndices, point),
                  Matching(c, L, R, Members(node.leftNode), point));
  }

  /** `query` on an inner node for a point right of the pivot: the center intervals that
      end late enough, then the right subtree. */
  method QueryAbovePivot(c: Closed, ghost L: seq<int>, ghost R: seq<int>, node: IntervalNode, result: Int64Vector, point: int)
    requires NodeValid(c, L, R, node) && node.Internal? && point > node.pivot
    modifies result
    ensures |old(result.data)| <= |result.data| && result.data[..|old(result.data)|] == old(result.data)
    ensures multiset(result.data[|old(result.data)|..]) == multiset(Matching(c, L, R, Members(node), point))
    decreases node, 0
  {
    MatchingInternal(c, L, R, node, point);
    ChildrenPruned(c, L, R, node, point);
    ghost var before := result.data;
    var i := ScanCenterRight(c, node.centerRightValues, node.centerRightIndices, result, point);
    RightScanMatches(c, L, R, node, point, i);
    ghost var mid := result.data;
    Query(c, L, R, node.rightNode, result, point);
    AppendedTwice(before, mid, result.data, Matching(c, L, R, node.centerLeftIndices, point),
                  Matching(c, L, R, Members(node.rightNode), point));
  }

  /** The filter over an inner node splits into its left subtree, center and right subtree. */
  lemma MatchingInternal(c: Closed, L: seq<int>, R: seq<int>, node: IntervalNode, point: int)
    requires NodeValid(c, L, R, node) && node.Internal?
    ensures multiset(Matching(c, L, R, Members(node), point))
            == multiset(Matching(c, L, R, Members(node.leftNode), point))
               + multiset(Matching(c, L, R, node.centerLeftIndices, point))
               + multiset(Matching(c, L, R, Members(node.rightNode), point))
  {
    var lm, rm, cli := Members(node.leftNode), Members(node.rightNode), node.centerLeftIndices;
    MatchingAppend(c, L, R, lm, cli, point);
    MatchingAppend(c, L, R, lm + cli, rm, point);
    assert Members(node) == lm + cli + rm;
  }

  /** `query` on an inner node: the center scan on the side of the pivot the point lies on,
      then that side's subtree; at the pivot, the whole center set. */
  method InternalQuery(c: Closed, ghost L: seq<int>, ghost R: seq<int>, node: IntervalNode, result: Int64Vector, point: int)
    requires NodeValid(c, L, R, node) && node.Internal?
    modifies result
    ensures |old(result.data)| <= |result.data| && result.data[..|old(result.data)|] == old(result.data)
    ensures multiset(result.data[|old(result.data)|..]) == multiset(Matching(c, L, R, Members(node), point))
    ensures point == node.pivot ==> result.data == old(result.data) + node.centerLeftIndices
    decreases node, 1
  {
    if point < node.pivot {
      QueryBelowPivot(c, L, R, node, result, point);
    } else if point > node.pivot {
      QueryAbovePivot(c, L, R, node, result, point);
    } else {
      ghost var before := result.data;
      result.Extend(node.centerLeftIndices);
      MatchingInternal(c, L, R, node, point);
      ChildrenPruned(c, L, R, node, point);
      CenterAtPivot(c, L, R, node);
      assert result.data[|before|..] == node.centerLeftIndices;
    }
  }

  // ---------------------------------------------------------------------------
  // Construction.

  /** A node's own arrays describe original intervals: position k holds the bounds of the
      original interval indices[k]. */
  ghost predicate Agrees(L: seq<int>, R: seq<int>, left: seq<int>, right: seq<int>, indices: seq<int>) {
    && |L| == |R| && |left| == |indices| && |right| == |indices| && InBounds(indices, |L|)
    && forall k :: 0 <= k < |indices| ==> left[k] == L[indices[k]] && right[k] == R[indices[k]]
  }

  /** Taking the same positions from all three arrays keeps them in agreement. */
  lemma AgreesTake(L: seq<int>, R: seq<int>, left: seq<int>, right: seq<int>, indices: seq<int>, subset: seq<int>)
    requires Agrees(L, R, left, right, indices) && InBounds(subset, |left|)
    ensures Agrees(L, R, Take(left, subset), Take(right, subset), Take(indices, subset))
  {
  }

  /** Every position listed in s is one whose interval falls in bucket b. */
  ghost predicate AllIn(c: Closed, left: seq<int>, right: seq<int>, pivot: int, s: seq<int>, b: Bucket) {
    && |left| == |right| && InBounds(s, |left|)
    && forall k :: 0 <= k < |s| ==> BucketOf(c, left[s[k]], right[s[k]], pivot) == b
  }

  lemma BucketedAllIn(c: Closed, left: seq<int>, right: seq<int>, pivot: int, b: Bucket)
    requires |left| == |right|
    ensures AllIn(c, left, right, pivot, Bucketed(c, left, right, pivot, b), b)
  {
    var s := Bucketed(c, left, right, pivot, b);
    BucketedMembers(c, left, right, pivot, b);
    forall k | 0 <= k < |s| ensures BucketOf(c, left[s[k]], right[s[k]], pivot) == b {
      assert s[k] in s;
    }
  }

  /** An original position taken from a bucket has its interval in that bucket. */
  lemma TakenInBucket(c: Closed, L: seq<int>, R: seq<int>, left: seq<int>, right: seq<int>, indices: seq<int>,
                      pivot: int, s: seq<int>, b: Bucket, id: int)
    requires Agrees(L, R, left, right, indices) && AllIn(c, left, right, pivot, s, b)
    requires id in Take(indices, s)
    ensures 0 <= id < |L| && BucketOf(c, L[id], R[id], pivot) == b
  {
    var k :| 0 <= k < |s| && Take(indices, s)[k] == id;
  }

  /** The sorted center arrays of one side: values ascending, each beside its own index, and
      the indices those of the center bucket. */
  ghost predicate SortedCenter(side: seq<int>, indices: seq<int>, center: seq<int>, values: seq<int>, ids: seq<int>)
    requires InBounds(center, |side|) && InBounds(center, |indices|)
  {
    && |values| == |center| && |ids| == |center| && Ascending(values)
    && multiset(ids) == multiset(Take(indices, center))
    && forall k :: 0 <= k < |center| ==> Paired(side, indices, center, values[k], ids[k])
  }

  /** The center arrays an inner node builds describe original intervals that contain the
      pivot, each bound at its own original position. */
  lemma CenterAgrees(c: Closed, L: seq<int>, R: seq<int>, left: seq<int>, right: seq<int>, indices: seq<int>,
                     pivot: int, center: seq<int>, values: seq<int>, ids: seq<int>, useLeft: bool)
    requires Agrees(L, R, left, right, indices) && AllIn(c, left, right, pivot, center, Center)
    requires SortedCenter(if useLeft then left else right, indices, center, values, ids)
    ensures InBounds(ids, |L|)
    ensures forall k :: 0 <= k < |ids| ==>
              values[k] == (if useLeft then L[ids[k]] else R[ids[k]]) && Contains(c, L[ids[k]], R[ids[k]], pivot)
  {
    forall k | 0 <= k < |ids|
      ensures 0 <= ids[k] < |L|
      ensures values[k] == (if useLeft then L[ids[k]] else R[ids[k]]) && Contains(c, L[ids[k]], R[ids[k]], pivot)
    {
      assert Paired(if useLeft then left else right, indices, center, values[k], ids[k]);
      var j :| 0 <= j < |center| && values[k] == (if useLeft then left else right)[center[j]]
                                 && ids[k] == indices[center[j]];
      BucketOfMeaning(c, left[center[j]], right[center[j]], pivot);
    }
  }

  /** An inner node assembled from the classification, two valid children and the sorted
      center arrays is itself valid. */
  lemma InternalValid(c: Closed, L: seq<int>, R: seq<int>, left: seq<int>, right: seq<int>, indices: seq<int>,
                      pivot: int, ls: seq<int>, cs: seq<int>, rs: seq<int>,
                      leftNode: IntervalNode, rightNode: IntervalNode,
                      clv: seq<int>, cli: seq<int>, crv: seq<int>, cri: seq<int>)
    requires Agrees(L, R, left, right, indices)
    requires AllIn(c, left, right, pivot, ls, LeftOf) && AllIn(c, left, right, pivot, rs, RightOf)
    requires AllIn(c, left, right, pivot, cs, Center)
    requires NodeValid(c, L, R, leftNode) && multiset(Members(leftNode)) == multiset(Take(indices, ls))
    requires NodeValid(c, L, R, rightNode) && multiset(Members(rightNode)) == multiset(Take(indices, rs))
    requires SortedCenter(left, indices, cs, clv, cli) && SortedCenter(right, indices, cs, crv, cri)
    ensures NodeValid(c, L, R, Internal(pivot, leftNode, rightNode, clv, cli, crv, cri))
  {
    CenterAgrees(c, L, R, left, right, indices, pivot, cs, clv, cli, true);
    CenterAgrees(c, L, R, left, right, indices, pivot, cs, crv, cri, false);
    SideSeparated(c, L, R, left, right, indices, pivot, ls, LeftOf, Members(leftNode));
    SideSeparated(c, L, R, left, right, indices, pivot, rs, RightOf, Members(rightNode));
  }

  /** The intervals a side bucket hands to a child lie wholly on that side of the pivot. */
  lemma SideSeparated(c: Closed, L: seq<int>, R: seq<int>, left: seq<int>, right: seq<int>, indices: seq<int>,
                      pivot: int, s: seq<int>, b: Bucket, members: seq<int>)
    requires Agrees(L, R, left, right, indices) && AllIn(c, left, right, pivot, s, b)
    requires multiset(members) == multiset(Take(indices, s))
    ensures forall id :: id in members ==> 0 <= id < |L|
    ensures b == LeftOf ==> forall id :: id in members ==> !Holds(CmpRight(c), pivot, R[id])
    ensures b == RightOf ==> forall id :: id in members ==> !Holds(CmpLeft(c), L[id], pivot)
  {
    forall id | id in members
      ensures 0 <= id < |L|
      ensures b == LeftOf ==> !Holds(CmpRight(c), pivot, R[id])
      ensures b == RightOf ==> !Holds(CmpLeft(c), L[id], pivot)
    {
      assert id in multiset(members);
      TakenInBucket(c, L, R, left, right, indices, pivot, s, b, id);
      BucketOfMeaning(c, L[id], R[id], pivot);
    }
  }

  /** The three buckets, taken from `indices`, hand out every original position once. */
  lemma InternalMembers(c: Closed, left: seq<int>, right: seq<int>, indices: seq<int>, pivot: int,
                        leftMembers: seq<int>, center: seq<int>, rightMembers: seq<int>)
    requires |left| == |indices| && |right| == |indices|
    requires InBounds(Bucketed(c, left, right, pivot, LeftOf), |left|)
    requires InBounds(Bucketed(c, left, right, pivot, RightOf), |left|)
    requires InBounds(Bucketed(c, left, right, pivot, Center), |left|)
    requires multiset(leftMembers) == multiset(Take(indices, Bucketed(c, left, right, pivot, LeftOf)))
    requires multiset(center) == multiset(Take(indices, Bucketed(c, left, right, pivot, Center)))
    requires multiset(rightMembers) == multiset(Take(indices, Bucketed(c, left, right, pivot, RightOf)))
    ensures multiset(leftMembers + center + rightMembers) == multiset(indices)
  {
    var ls, cs, rs := Bucketed(c, left, right, pivot, LeftOf),
                      Bucketed(c, left, right, pivot, Center),
                      Bucketed(c, left, right, pivot, RightOf);
    TakeAppend(indices, ls, cs);
    TakeAppend(indices, ls + cs, rs);
    PositionsPartition(Classes(c, left, right, pivot), |left|);
    TakeRange(indices);
    MultisetTake(indices, ls + cs + rs, Range(|indices|));
  }

  /** In a strictly increasing list of positions below n, entry i lies between i and
      n - |s| + i. */
  lemma {:induction false} IncreasingBounds(s: seq<int>, n: int, i: int)
    requires InBounds(s, n) && StrictlyIncreasing(s) && 0 <= i < |s|
    ensures i <= s[i] <= n - |s| + i
    decreases |s| - i
  {
    if i + 1 < |s| {
      IncreasingBounds(s, n, i + 1);
    }
    LowerBound(s, i);
  }

  /** Entries of a strictly increasing list of naturals are at least their positions. */
  lemma {:induction false} LowerBound(s: seq<int>, i: int)
    requires (forall k :: 0 <= k < |s| ==> 0 <= s[k]) && StrictlyIncreasing(s) && 0 <= i < |s|
    ensures i <= s[i]
  {
    if i > 0 {
      LowerBound(s, i - 1);
    }
  }

  /** A strictly increasing list of at least n positions below n lists all of them: a child
      built from it would hold the very intervals of its parent. */
  lemma FullSubset(subset: seq<int>, n: nat)
    requires InBounds(subset, n) && StrictlyIncreasing(subset) && |subset| >= n
    ensures subset == Range(n)
  {
    if |subset| > 0 {
      IncreasingBounds(subset, n, 0);
    }
    forall i | 0 <= i < |subset| ensures subset[i] == i {
      IncreasingBounds(subset, n, i);
    }
  }

  /** Whether building a node over these bounds comes to an end: the node is a leaf, or each
      side bucket is smaller than the node and the child built from it comes to an end too.
      The indices play no part: the pivot and the classification read only the bounds. */
  ghost predicate Progresses(c: Closed, left: seq<int>, right: seq<int>, leafSize: int,
                             pivotOf: (seq<int>, seq<int>) -> int)
    requires |left| == |right|
    decreases |left|
  {
    || |left| <= leafSize
    || var pivot := pivotOf(left, right);
       var ls, rs := Bucketed(c, left, right, pivot, LeftOf), Bucketed(c, left, right, pivot, RightOf);
       BucketedMembers(c, left, right, pivot, LeftOf);
       BucketedMembers(c, left, right, pivot, RightOf);
       && |ls| < |left| && |rs| < |left|
       && Progresses(c, Take(left, ls), Take(right, ls), leafSize, pivotOf)
       && Progresses(c, Take(left, rs), Take(right, rs), leafSize, pivotOf)
  }

  /** `IntervalNode.__init__`: a node of at most `leafSize` intervals is a leaf; a larger one
      takes `pivotOf` of its bounds as pivot, classifies its intervals and builds a child from
      each side and the sorted center arrays from the rest. The source recurses without end
      when a child would hold all of its parent's intervals; that case is `NoProgress`. */
  method NewNode(c: Closed, ghost L: seq<int>, ghost R: seq<int>, left: seq<int>, right: seq<int>, indices: seq<int>,
                 leafSize: int, pivotOf: (seq<int>, seq<int>) -> int)
    returns (r: Result<IntervalNode>)
    requires Agrees(L, R, left, right, indices)
    ensures r.Success? ==> NodeValid(c, L, R, r.value) && multiset(Members(r.value)) == multiset(indices)
    ensures |left| <= leafSize <==> r == Success(Leaf(left, right, indices))
    ensures r.Success? && |left| > leafSize ==> r.value.Internal? && r.value.pivot == pivotOf(left, right)
    ensures r.Failure? ==> r.error == NoProgress
    ensures r.Success? <==> Progresses(c, left, right, leafSize, pivotOf)
    decreases |left|, 1
  {
    if |left| <= leafSize {
      return Success(Leaf(left, right, indices));
    }
    var pivot := pivotOf(left, right);
    var leftSet, rightSet, centerSet := ClassifyIntervals(c, left, right, pivot);
    BucketedMembers(c, left, right, pivot, LeftOf);
    BucketedMembers(c, left, right, pivot, RightOf);
    BucketedMembers(c, left, right, pivot, Center);
    BucketedAllIn(c, left, right, pivot, LeftOf);
    BucketedAllIn(c, left, right, pivot, RightOf);
    BucketedAllIn(c, left, right, pivot, Center);
    var leftNode :- NewChildNode(c, L, R, left, right, indices, leftSet, leafSize, pivotOf);
    var rightNode :- NewChildNode(c, L, R, left, right, indices, rightSet, leafSize, pivotOf);
    var (clv, cli) := SortValuesAndIndices(left, indices, centerSet);
    var (crv, cri) := SortValuesAndIndices(right, indices, centerSet);
    InternalValid(c, L, R, left, right, indices, pivot, leftSet, centerSet, rightSet,
                  leftNode, rightNode, clv, cli, crv, cri);
    InternalMembers(c, left, right, indices, pivot, Members(leftNode), cli, Members(rightNode));
    return Success(Internal(pivot, leftNode, rightNode, clv, cli, crv, cri));
  }

  /** `new_child_node`: the node built from the intervals at the positions `subset`. */
  method NewChildNode(c: Closed, ghost L: seq<int>, ghost R: seq<int>, left: seq<int>, right: seq<int>, indices: seq<int>,
                      subset: seq<int>, leafSize: int, pivotOf: (seq<int>, seq<int>) -> int)
    returns (r: Result<IntervalNode>)
    requires Agrees(L, R, left, right, indices) && InBounds(subset, |left|) && StrictlyIncreasing(subset)
    ensures r.Success? ==> NodeValid(c, L, R, r.value) && multiset(Members(r.value)) == multiset(Take(indices, subset))
    ensures |subset| < |left| && r.Success? ==> (|subset| <= leafSize <==> r.value.Leaf?)
    ensures |subset| >= |left| ==> r == Failure(NoProgress)
    ensures r.Failure? ==> r.error == NoProgress
    ensures r.Success? <==> |subset| < |left| && Progresses(c, Take(left, subset), Take(right, subset), leafSize, pivotOf)
    decreases |left|, 0
  {
    if |subset| >= |left| {
      // The child would be this very node again (FullSubset).
      return Failure(NoProgress);
    }
    AgreesTake(L, R, left, right, indices, subset);
    r := NewNode(c, L, R, Take(left, subset), Take(right, subset), Take(indices, subset), leafSize, pivotOf);
  }

  /** The shape `counts` reports: a leaf's size, or an inner node's center size with the
      counts of its two subtrees. */
  datatype Counts = LeafCount(n: nat) | NodeCounts(center: nat, leftCounts: Counts, rightCounts: Counts)

  /** `counts`. */
  function CountsOf(node: IntervalNode): (r: Counts)
    ensures r.LeafCount? <==> node.Leaf?
    ensures node.Internal? ==> r.center == |node.centerLeftValues|
  {
    match node
    case Leaf(lv, _, _) => LeafCount(|lv|)
    case Internal(_, ln, rn, clv, _, _, _) => NodeCounts(|clv|, CountsOf(ln), CountsOf(rn))
  }

  /** The number of intervals a count shape describes. */
  function Total(counts: Counts): nat {
    match counts
    case LeafCount(n) => n
    case NodeCounts(m, l, r) => m + Total(l) + Total(r)
  }

  /** The counts of a valid node add up to the number of intervals it holds. */
  lemma {:induction false} CountsTotal(c: Closed, L: seq<int>, R: seq<int>, node: IntervalNode)
    requires NodeValid(c, L, R, node)
    ensures Total(CountsOf(node)) == |Members(node)|
  {
    match node
    case Leaf(_, _, _) =>
    case Internal(_, ln, rn, _, _, _, _) =>
      CountsTotal(c, L, R, ln);
      CountsTotal(c, L, R, rn);
  }
}
