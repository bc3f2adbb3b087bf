/** Closure modes and the comparators each of them fixes. */
module Closure {
  import opened Results

  /** Which endpoints of every interval in a tree count as inside the interval. */
  datatype Closed = Left | Right | Both | Neither

  /** A comparison operator as the node code is instantiated with it. */
  datatype Op = Lt | Le

  function Holds(op: Op, a: int, b: int): bool {
    match op
    case Lt => a < b
    case Le => a <= b
  }

  /** The spellings IntervalTree accepts for its `closed` argument. */
  const ClosedNames: seq<string> := ["left", "right", "both", "neither"]

  function Name(c: Closed): string {
    match c
    case Left => "left"
    case Right => "right"
    case Both => "both"
    case Neither => "neither"
  }

  /** The check on `closed` at the head of IntervalTree's constructor. */
  function Parse(closed: string): (r: Result<Closed>)
    ensures r.Success? <==> closed in ClosedNames
    ensures r.Success? ==> Name(r.value) == closed
    ensures r.Failure? ==> r.error == InvalidClosed(closed)
  {
    if closed == "left" then Success(Left)
    else if closed == "right" then Success(Right)
    else if closed == "both" then Success(Both)
    else if closed == "neither" then Success(Neither)
    else Failure(InvalidClosed(closed))
  }

  /** `cmp_left`: the operator in `left cmp_left point`. */
  function CmpLeft(c: Closed): Op {
    match c
    case Left => Le
    case Right => Lt
    case Both => Le
    case Neither => Lt
  }

  /** `cmp_right`: the operator in `point cmp_right right`. */
  function CmpRight(c: Closed): Op {
    match c
    case Left => Lt
    case Right => Le
    case Both => Le
    case Neither => Lt
  }

  /** The converse operator: strict for non-strict and non-strict for strict.
      Swapping the operands of the converse negates the original comparison. */
  function Converse(op: Op): (r: Op)
    ensures r != op
    ensures forall a: int, b: int :: Holds(r, b, a) <==> !Holds(op, a, b)
  {
    if op == Le then Lt else Le
  }

  /** `left cmp_left point cmp_right right`: the interval [l, r] under mode c contains p. */
  function Contains(c: Closed, l: int, r: int, p: int): (b: bool)
    ensures b ==> l <= p <= r
    ensures l < p < r ==> b
    ensures p == l && l < r ==> (b <==> c == Left || c == Both)
    ensures p == r && l < r ==> (b <==> c == Right || c == Both)
  {
    Holds(CmpLeft(c), l, p) && Holds(CmpRight(c), p, r)
  }
}
