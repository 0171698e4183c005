/** Errors the reconciliation engine raises, and a failure-compatible result type. */
module Results {

  /** The exceptions of utils.py that the model keeps. */
  datatype Error =
    | NoKeyColumnsForMatching   // ValueError raised by perform_reconciliation
    | NoKeyColumns              // ValueError raised by create_composite_key
    | MissingGroupColumn        // KeyError: a grouping column is not in its table
    | NoGroupKeys               // ValueError: groupby([]) on a table with rows
    | NothingToAggregate        // groupby(...).agg({}) with no reduction left to apply
    | ReductionFailed           // agg raised: a reduction does not apply to a group's cells

  datatype Result<+T> = Ok(value: T) | Err(error: Error) {

    predicate IsFailure() {
      Err?
    }

    function PropagateFailure<U>(): Result<U>
      requires Err?
    {
      Err(error)
    }

    function Extract(): T
      requires Ok?
    {
      value
    }
  }
}
