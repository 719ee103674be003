/** Optional values; a missing one propagates as a raised error does. */
module Options {
  datatype Option<+T> = None | Some(value: T) {
    predicate IsFailure() {
      None?
    }

    function PropagateFailure<U>(): Option<U>
      requires None?
    {
      None
    }

    function Extract(): T
      requires Some?
    {
      value
    }
  }

  datatype Guard = Holds | Raises {
    predicate IsFailure() {
      Raises?
    }

    function PropagateFailure<U>(): Option<U>
      requires Raises?
    {
      None
    }
  }

  /** A guard that raises unless its condition holds. */
  function Check(condition: bool): Guard {
    if condition then Holds else Raises
  }
}
