/** The conditions the interval tree signals, and a failure-compatible Result over them. */
module Results {

  datatype Error =
    | InvalidClosed(closed: string)   // ValueError: 'closed' names none of the four modes
    | KeyNotFound(key: int)           // KeyError(key): no interval contains the key
    | NotUniqueIntervals              // KeyError: a target lies in more than one interval
    | NoProgress                      // a child node would be the node itself: unbounded recursion

  datatype Result<+T> = Success(value: T) | Failure(error: Error) {

    predicate IsFailure() {
      Failure?
    }

    function PropagateFailure<U>(): Result<U>
      requires Failure?
    {
      Failure(error)
    }

    function Extract(): T
      requires Success?
    {
      value
    }
  }
}
