# Centered interval tree (pandas `IntervalTree`), modelled in Dafny

This project models the centered interval tree that pandas generates in
`pandas/src/generate_intervaltree.py`. pandas uses it to find which intervals of an
`IntervalIndex` contain a point.

**The tree.** `IntervalTree` takes parallel arrays of left and right bounds, a closure
mode (`left`, `right`, `both` or `neither`) and a leaf size. It builds a tree of
`IntervalNode`s over the positions `0 .. n-1`.

**Nodes.**
- A node holding no more intervals than the leaf size is a leaf, searched linearly.
- A larger node picks a pivot and classifies each interval as left of it, right of it,
  or containing it. The two sides become child nodes. The intervals that contain the
  pivot stay in the node twice over: sorted by left bound and sorted by right bound.

**Query.** `query` appends to a growable int64 vector the positions of the intervals
that contain a point.
- Left of the pivot it scans the left-sorted center array forward until the first miss,
  then descends left.
- Right of the pivot it scans the right-sorted array backward, then descends right.
- At the pivot it appends the whole center.

**Tree operations.** `get_loc`, `get_indexer` and `get_indexer_non_unique` run one query
per key. `_get_partial_overlap` finds the intervals with one bound in a range by two
binary searches over an argsort.

**Closure modes.** Each mode fixes two comparators (source lines 353-359). An interval
`[l, r]` contains `p` when `l cmp_left p cmp_right r`. Classification uses the converse
comparators.

**The reference answer.** Every property of the query is stated against a brute-force
reference, `Trees.Overlapping`: the positions, in increasing order, of the intervals
that contain the point. The proofs cover:
- the construction succeeds exactly when its recursion comes to an end (`Nodes.Progresses`),
  and then builds a valid tree holding every position exactly once;
- the query on any valid node returns exactly the reference answer, as a multiset;
- `get_loc`, `get_indexer` and `get_indexer_non_unique` report what the reference
  answer dictates, error paths included.

**Modelling choices.**
- Keys and bounds are unbounded integers. This is the int64 instantiation without
  overflow.
- Nodes and trees are immutable datatypes. The source never changes a node after its
  constructor returns.
- The accumulator `Int64Vector` is a class whose methods append to a sequence field.
- The pivot rule is a function the caller supplies.

A worked example of the comparator table: under the right-closed comparators of line
355 (`<` on the left bound, `<=` on the right bound), the intervals (0, 2], (1, 3],
(5, 7] give [0] for point 1, [0, 1] for point 2 and nothing for point 4.
`Trees.RightClosedExample` proves this.

Files: `results.dfy` (errors, `Result`), `closure.dfy` (modes and comparators),
`vectors.dfy` (the vector, `arange`, `take`), `sorting.dfy` (argsort,
`sort_values_and_indices`, `searchsorted`), `node.dfy` (`IntervalNode`), `tree.dfy`
(`IntervalTree`).

## Model

| member | source | states |
|---|---|---|
| Closure.Parse | pandas/src/generate_intervaltree.py:65-66 | succeeds exactly when `closed` is one of the four mode names, and then names that mode; otherwise fails with `InvalidClosed(closed)` (the ValueError) |
| Closure.Converse | pandas/src/generate_intervaltree.py:358-359 | the converse differs from the operator, and for all a, b the converse with operands swapped holds exactly when the operator does not |
| Closure.Contains | pandas/src/generate_intervaltree.py:353-357 | containment implies l <= p <= r and holds strictly inside; at the left end of a proper interval it holds exactly for `left`/`both`, at the right end exactly for `right`/`both` |
| Vectors.Int64Vector.Append | pandas/src/generate_intervaltree.py:302 | `append` adds x at the end and changes nothing else |
| Vectors.Int64Vector.Extend | pandas/src/generate_intervaltree.py:323 | `extend` adds xs at the end and changes nothing else |
| Vectors.RangeCount | pandas/src/generate_intervaltree.py:74 | `arange(n)` lists each position 0 .. n-1 exactly once and nothing else |
| Vectors.TakeRange | pandas/src/generate_intervaltree.py:179-182 | taking the positions 0 .. n-1 from an array of length n gives the array back |
| Vectors.TakeAppend | pandas/src/generate_intervaltree.py:179-182 | taking by a concatenation of position lists is the concatenation of the two takes |
| Vectors.MultisetTake | pandas/src/generate_intervaltree.py:179-182 | taking by two position lists that are permutations of each other yields permutations of each other |
| Sorting.ArgSort | pandas/src/generate_intervaltree.py:188 | the argsort is a permutation of the positions 0 .. n-1 that visits the values in ascending order |
| Sorting.Reordered | pandas/src/generate_intervaltree.py:188-190 | reordering values and indices by the argsort gives ascending values and a permutation of each array |
| Sorting.ReorderedPairs | pandas/src/generate_intervaltree.py:189-190 | after reordering, each value still sits beside the index taken with it from the same subset position |
| Sorting.SortValuesAndIndices | pandas/src/generate_intervaltree.py:185-191 | both results have the subset's length; the values ascend; they are permutations of the taken values and indices; each value is paired with its own index |
| Sorting.SortValuesAndIndicesReorders | pandas/src/generate_intervaltree.py:185-191 | the sorted values and the sorted indices are the taken arrays reordered by one common permutation of the subset's positions |
| Sorting.SearchSorted | pandas/src/generate_intervaltree.py:118 | `searchsorted` with side left: every entry before the result is below the key, every entry from it on is at least the key |
| Nodes.MatchingMembers | pandas/src/generate_intervaltree.py:300-302 | the brute-force filter keeps an id exactly when it is among the ids and its interval contains the point |
| Nodes.MatchingIncreasing | pandas/src/generate_intervaltree.py:300-302 | filtering strictly increasing ids gives strictly increasing matches |
| Nodes.MatchingMultiset | pandas/src/generate_intervaltree.py:300-302 | the filter's result, up to order, depends only on the multiset of ids filtered |
| Nodes.BucketOf | pandas/src/generate_intervaltree.py:260-265 | the three-way branch classes an interval as center exactly when it contains the pivot |
| Nodes.BucketOfMeaning | pandas/src/generate_intervaltree.py:259-265 | an interval is classed left exactly when the pivot is past its right bound, right exactly when it is not left and the pivot is before its left bound, and center exactly when it contains the pivot |
| Nodes.BucketedMembers | pandas/src/generate_intervaltree.py:259-269 | each bucket is strictly increasing and holds exactly the positions whose interval falls in it |
| Nodes.PositionsPartition | pandas/src/generate_intervaltree.py:259-269 | the three buckets together hold every position 0 .. n-1 exactly once |
| Nodes.ClassifyIntervals | pandas/src/generate_intervaltree.py:247-269 | the loop's three lists are the left, right and center buckets of the classification |
| Nodes.ChildrenPruned | pandas/src/generate_intervaltree.py:306-321 | on a valid node, no interval of the right subtree contains a point at or left of the pivot, and none of the left subtree one at or right of it |
| Nodes.CenterAtPivot | pandas/src/generate_intervaltree.py:322-323 | every center interval contains the pivot, so the whole center array matches it |
| Nodes.LeftScanMatches | pandas/src/generate_intervaltree.py:306-312 | left of the pivot, the center intervals containing the point are exactly the prefix of the left-sorted array before the first miss |
| Nodes.RightScanMatches | pandas/src/generate_intervaltree.py:314-320 | right of the pivot, the center intervals containing the point are, up to order, exactly the suffix of the right-sorted array after the last miss |
| Nodes.ScanLeaf | pandas/src/generate_intervaltree.py:300-302 | the leaf scan appends exactly the matching ids, in the leaf's order |
| Nodes.ScanCenterLeft | pandas/src/generate_intervaltree.py:307-312 | the forward scan appends the prefix before index i, every value before i admits the point, and the value at i (if any) does not |
| Nodes.ScanCenterRight | pandas/src/generate_intervaltree.py:315-320 | the backward scan appends the suffix from index i in reverse order, the last entry first; every value from i admits the point, and the one before i (if any) does not |
| Nodes.Query | pandas/src/generate_intervaltree.py:287-323 | keeps what `result` held and appends, up to order, exactly the ids under the node whose interval contains the point; exactly the matches in order on a leaf; exactly the left-sorted center at the pivot |
| Nodes.QueryBelowPivot | pandas/src/generate_intervaltree.py:306-313 | left of the pivot, center scan then left subtree append exactly the node's matches, up to order |
| Nodes.QueryAbovePivot | pandas/src/generate_intervaltree.py:314-321 | right of the pivot, backward center scan then right subtree append exactly the node's matches, up to order |
| Nodes.InternalQuery | pandas/src/generate_intervaltree.py:303-323 | an inner node's query appends exactly its matches, up to order, and the whole left-sorted center at the pivot |
| Nodes.InternalValid | pandas/src/generate_intervaltree.py:230-243 | an inner node built from the classification, two valid children and the sorted center arrays is valid |
| Nodes.InternalMembers | pandas/src/generate_intervaltree.py:234-243 | the left child, the center and the right child together hold each of the node's ids exactly as often as the node was given it |
| Nodes.FullSubset | pandas/src/generate_intervaltree.py:271-282 | a strictly increasing list of at least n positions below n is 0 .. n-1, so such a child would be the parent again |
| Nodes.NewNode | pandas/src/generate_intervaltree.py:214-243 | a node is a leaf of the given arrays exactly when it has at most leaf-size intervals; otherwise an inner node at the given pivot; the build succeeds exactly when its recursion comes to an end (`Progresses`: a leaf, or both side buckets smaller than the node and each child's build ending too), and then it is valid and holds the given ids up to order; the only failure is `NoProgress` |
| Nodes.NewChildNode | pandas/src/generate_intervaltree.py:271-282 | the child built from a subset is valid and holds the ids at those positions; it succeeds exactly when the subset is smaller than the node and the build over the taken bounds comes to an end; a subset as large as the node fails with `NoProgress` |
| Nodes.CountsOf | pandas/src/generate_intervaltree.py:337-344 | `counts` reports a single count exactly for a leaf, and for an inner node its center size beside the counts of its subtrees |
| Nodes.CountsTotal | pandas/src/generate_intervaltree.py:337-344 | the counts `counts` reports add up to the number of intervals the node holds |
| Trees.OverlappingMembers | pandas/src/generate_intervaltree.py:97-100 | the reference answer is strictly increasing and holds exactly the positions whose interval contains the point |
| Trees.RootMatchesOverlapping | pandas/src/generate_intervaltree.py:102 | for a valid tree, the root's matches are the reference answer up to order |
| Trees.NewIntervalTree | pandas/src/generate_intervaltree.py:50-79 | an unknown mode fails with `InvalidClosed`; for a known mode the build succeeds exactly when its recursion comes to an end (`Progresses`), and the tree is then valid, keeps the bounds and mode, and has a leaf root over 0 .. n-1 when n <= leaf size; the only other failure is `NoProgress` |
| Trees.SplitExample | pandas/src/generate_intervaltree.py:223-240 | with leaf size 1 and pivot 5, the right-closed intervals (0, 1], (10, 11] split into two leaves, so a tree above the leaf size is built |
| Trees.QueryTarget | pandas/src/generate_intervaltree.py:146 | querying the root keeps what the vector held and appends the reference answer up to order |
| Trees.GetLoc | pandas/src/generate_intervaltree.py:97-105 | fails with `KeyNotFound(key)` exactly when no interval contains the key; otherwise returns the reference answer up to order, in order when the root is a single leaf |
| Trees.IndexerShare | pandas/src/generate_intervaltree.py:147-151 | an empty share means the reference answer is empty; a one-element share is the one containing interval |
| Trees.IndexerStep | pandas/src/generate_intervaltree.py:146-152 | one round succeeds exactly when at most one interval contains the target, and then appends one entry that is -1 or that interval |
| Trees.GetIndexer | pandas/src/generate_intervaltree.py:134-153 | fails with `NotUniqueIntervals` exactly when some target lies in more than one interval; otherwise one entry per target: -1 when none contains it, else the one that does |
| Trees.NonUniqueShare | pandas/src/generate_intervaltree.py:168-170 | a query appended nothing exactly when no interval contains the target, and the share is then -1 |
| Trees.NonUniqueStep | pandas/src/generate_intervaltree.py:166-171 | one round appends the target's share (its intervals up to order, or -1) and records i as missing exactly when nothing contains the target |
| Trees.GetIndexerNonUnique | pandas/src/generate_intervaltree.py:155-172 | the result is the targets' shares in target order, each the containing intervals up to order or a single -1; `missing` is strictly increasing and holds exactly the targets no interval contains |
| Trees.WindowMembers | pandas/src/generate_intervaltree.py:117-119 | the stretch of the argsort between the two search results holds exactly the positions whose bound lies in [key_left, key_right) |
| Trees.GetPartialOverlap | pandas/src/generate_intervaltree.py:107-119 | returns exactly the positions whose chosen bound lies in [key_left, key_right), each once, in ascending order of that bound |
| Trees.RightClosedExample | pandas/src/generate_intervaltree.py:355 | with the right-closed comparators, (0, 2], (1, 3], (5, 7] give [0] for point 1, [0, 1] for point 2 and nothing for point 4 |

## Left out

- The float64 instantiation and the fused `scalar64_t` key type (lines 31-33, 352) are left out. Keys and bounds are unbounded integers, so int64 overflow is not modelled.
- The pivot `np.median(left + right) / 2` (line 233) is not computed. The model takes a pivot function from the caller, because median and float division are NumPy floating point.
- The code generator (lines 350-386) is not modelled. Neither is the `NODE_CLASSES` registry (lines 36, 78, 346): one node type takes the mode as a value instead.
- `np.asarray` and `np.result_type` dtype coercion (lines 68-72) are not modelled.
- Equal-length `left` and `right` is a precondition. The source does not check it. With a leaf root the query reads `right[i]` for every i below `len(left)` without a bounds check (lines 284-286, 300-301). Above the leaf size, `left + right` (line 233) broadcasts an array of length 1 and raises ValueError for any other mismatch. The model describes none of these behaviours.
- The cached `left_sorter` and `right_sorter` properties (lines 81-95) are not modelled. `Trees.GetPartialOverlap` recomputes the argsort, which returns the same value.
- `get_loc_interval` (lines 121-132) is not modelled. It queries at the float midpoint `0.5 * (key_left + key_right)` and calls `pd.unique`.
- `__repr__` of the tree and of nodes (lines 174-176, 325-335) is output formatting only.
- The `n_elements`, `n_center` and `is_leaf_node` fields are derived from the datatype: lengths and `Leaf?`.
- The node's `leaf_size` field (declared at line 211, set at line 221) is not stored. The model passes the leaf size to `Nodes.NewNode`, which hands it to every child build.
- The implementation of `Int64Vector` (pandas' hashtable module) is not modelled. The model keeps its contents as a `seq<int>` with `append` and `extend`.
- `classify_intervals` builds three local vectors and converts them with `to_array`. The model builds three local sequences.
- `PyArray_Take` (lines 179-182) is modelled by `Vectors.Take`.
- Sorting.ArgSort: uses a stable insertion sort, while the source calls quicksort (line 188). Tie order therefore may differ, and no proved property depends on it.
- Nodes.NewNode: a node whose child would receive all of its intervals recurses without end in the source. The model returns `Failure(NoProgress)` instead. `Nodes.FullSubset` proves such a child is the parent itself. Whether the recursion ends depends on the pivot function, so success is stated through `Nodes.Progresses` and not for all inputs.
- Nodes.Query: the appended ids are stated up to order for inner nodes. The exact order is stated only for leaves and at the pivot.
- Trees.GetLoc: the result is stated up to order, except for a single-leaf root.
- Trees.GetIndexerNonUnique: each target's share is stated up to order, for the same reason as `Nodes.Query`.
- Trees.IndexerStep: checks the appended count inside a step method. The source does this in `get_indexer`'s loop body; the control flow and results are the same.
