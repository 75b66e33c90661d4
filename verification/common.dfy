/** Failure-carrying wrappers shared by the whole model.

    The game never recovers from a Python exception, so every place where the
    program would raise is modelled as a `Fault` outcome that the callers
    propagate with `:-`.
 */
module Common {

  datatype Option<+T> = None | Some(value: T)

  /** The two exceptions the settling engine can raise on reachable inputs. */
  datatype Crash =
    | EmptyLabelList   // `max([])` when labelling a grid with no tile
    | EmptyFullRowCell // `None.number` when a row counted as full has a hole in columns 0..11

  datatype Result<+T> = Ok(value: T) | Fault(crash: Crash) {

    predicate IsFailure() {
      Fault?
    }

    function PropagateFailure<U>(): Result<U>
      requires Fault?
    {
      Fault(crash)
    }

    function Extract(): T
      requires Ok?
    {
      value
    }
  }
}
