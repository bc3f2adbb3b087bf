/** Positional arrays: the accumulator vector, `arange`, `take`, and their multiset laws. */
module Vectors {

  /** The growable int64 buffer results are accumulated in: `data.n` is |data| and
      `to_array()` is data. */
  class Int64Vector {
    var data: seq<int>

    constructor ()
      ensures data == []
    {
      data := [];
    }

    method Append(x: int)
      modifies this
      ensures data == old(data) + [x]
    {
      data := data + [x];
    }

    method Extend(xs: seq<int>)
      modifies this
      ensures data == old(data) + xs
    {
      data := data + xs;
    }
  }

  /** `arange(n)`: the positions 0 .. n-1 in order. */
  function Range(n: nat): seq<int> {
    seq(n, i => i)
  }

  /** 0 .. n-1 lists each of its positions once. */
  lemma {:induction false} RangeCount(n: nat, x: int)
    ensures multiset(Range(n))[x] == if 0 <= x < n then 1 else 0
  {
    if n > 0 {
      RangeCount(n - 1, x);
      assert Range(n) == Range(n - 1) + [n - 1];
      CountSnoc(Range(n - 1), n - 1, x);
    }
  }

  /** Appending y adds one occurrence of y and nothing else. */
  lemma CountSnoc(s: seq<int>, y: int, x: int)
    ensures multiset(s + [y])[x] == multiset(s)[x] + if x == y then 1 else 0
  {
    assert multiset(s + [y]) == multiset(s) + multiset{y};
  }

  /** Every element of s is a position into an array of length n. */
  predicate InBounds(s: seq<int>, n: int) {
    forall k :: 0 <= k < |s| ==> 0 <= s[k] < n
  }

  predicate StrictlyIncreasing(s: seq<int>) {
    forall i, j :: 0 <= i < j < |s| ==> s[i] < s[j]
  }

  /** `take(source, subset)`: the elements of source at the given positions, in that order. */
  function Take(source: seq<int>, subset: seq<int>): seq<int>
    requires InBounds(subset, |source|)
  {
    seq(|subset|, k requires 0 <= k < |subset| => source[subset[k]])
  }

  /** The reverse of s: its last element first. */
  function Reversed(s: seq<int>): (r: seq<int>)
    ensures |r| == |s|
  {
    if s == [] then [] else Reversed(s[1..]) + [s[0]]
  }

  /** Reversing keeps every element with its multiplicity. */
  lemma {:induction false} ReversedMultiset(s: seq<int>)
    ensures multiset(Reversed(s)) == multiset(s)
  {
    if s != [] {
      ReversedMultiset(s[1..]);
      assert s == [s[0]] + s[1..];
    }
  }

  lemma TakeAppend(s: seq<int>, a: seq<int>, b: seq<int>)
    requires InBounds(a, |s|) && InBounds(b, |s|)
    ensures InBounds(a + b, |s|)
    ensures Take(s, a + b) == Take(s, a) + Take(s, b)
  {
  }

  lemma TakeRange(s: seq<int>)
    ensures InBounds(Range(|s|), |s|) && Take(s, Range(|s|)) == s
  {
  }

  /** Removing the first element of a and a matching element of b from two permutations of
      each other leaves permutations of each other. */
  lemma CancelOne(a: seq<int>, b: seq<int>, j: int)
    requires |a| > 0 && 0 <= j < |b| && b[j] == a[0]
    requires multiset(a) == multiset(b)
    ensures multiset(a[1..]) == multiset(b[..j] + b[j + 1..])
  {
    assert a == [a[0]] + a[1..];
    assert b == b[..j] + [b[j]] + b[j + 1..];
    calc {
      multiset(a[1..]);
      multiset(a) - multiset{a[0]};
      multiset(b) - multiset{b[j]};
      multiset(b[..j]) + multiset(b[j + 1..]);
      multiset(b[..j] + b[j + 1..]);
    }
  }

  /** Taking at b yields, up to order, the element at b[j] and what b yields without its
      entry j. */
  lemma TakeWithout(s: seq<int>, b: seq<int>, j: int)
    requires InBounds(b, |s|) && 0 <= j < |b|
    ensures InBounds(b[..j] + b[j + 1..], |s|)
    ensures multiset(Take(s, b)) == multiset{s[b[j]]} + multiset(Take(s, b[..j] + b[j + 1..]))
  {
    var b1, b2 := b[..j], b[j + 1..];
    assert b == b1 + [b[j]] + b2;
    TakeAppend(s, b1, [b[j]]);
    TakeAppend(s, b1 + [b[j]], b2);
    TakeAppend(s, b1, b2);
    var t1, t2 := Take(s, b1), Take(s, b2);
    assert Take(s, b) == t1 + [s[b[j]]] + t2;
    assert multiset(t1 + [s[b[j]]] + t2) == multiset(t1) + multiset{s[b[j]]} + multiset(t2);
  }

  /** Taking at a yields the element at a[0] and what the rest of a yields. */
  lemma TakeFirst(s: seq<int>, a: seq<int>)
    requires InBounds(a, |s|) && |a| > 0
    ensures InBounds(a[1..], |s|)
    ensures multiset(Take(s, a)) == multiset{s[a[0]]} + multiset(Take(s, a[1..]))
  {
    assert Take(s, a) == [s[a[0]]] + Take(s, a[1..]);
  }

  /** Matching a[0] against entry j of a permutation b of a. */
  lemma RemoveMatch(s: seq<int>, a: seq<int>, b: seq<int>, j: int)
    requires InBounds(a, |s|) && InBounds(b, |s|) && |a| > 0 && 0 <= j < |b| && b[j] == a[0]
    requires multiset(a) == multiset(b)
    ensures InBounds(b[..j] + b[j + 1..], |s|)
    ensures multiset(a[1..]) == multiset(b[..j] + b[j + 1..])
    ensures multiset(Take(s, b)) == multiset{s[a[0]]} + multiset(Take(s, b[..j] + b[j + 1..]))
  {
    CancelOne(a, b, j);
    TakeWithout(s, b, j);
  }

  /** Taking by two position lists that are permutations of each other yields
      permutations of each other. */
  lemma {:induction false} MultisetTake(s: seq<int>, a: seq<int>, b: seq<int>)
    requires InBounds(a, |s|) && InBounds(b, |s|)
    requires multiset(a) == multiset(b)
    ensures multiset(Take(s, a)) == multiset(Take(s, b))
    decreases |a|
  {
    if a == [] {
      assert |b| == |multiset(b)| == 0;
    } else {
      assert a[0] in multiset(b);
      var j :| 0 <= j < |b| && b[j] == a[0];
      var rest := b[..j] + b[j + 1..];
      RemoveMatch(s, a, b, j);
      TakeFirst(s, a);
      MultisetTake(s, a[1..], rest);
    }
  }
}
