/** Values shared by every part of the scoring engine: the numbers numpy can
    produce and the ways a computation of the Python program can stop or be skipped. */
module Outcomes {

  /** Why a step of the engine produces no value. */
  datatype Fault =
    | DivisionByZero  // a float division by zero raises ZeroDivisionError
    | NotFinite       // int() or math.ceil() of nan or infinity raises
    | NoData          // the species table is empty, nothing is computed

  /** The outcome of a step that may stop with a fault. */
  datatype Result<T> = Ok(value: T) | Err(fault: Fault) {

    predicate IsFailure() {
      Err?
    }

    function PropagateFailure<U>(): Result<U>
      requires Err?
    {
      Err(fault)
    }

    function Extract(): T
      requires Ok?
    {
      value
    }
  }

  /** A float64 as numpy computes it: a real number, or nan/infinity once an
      undefined operation (0 * log 0, x / 0.0) has been performed. */
  datatype Num = Finite(v: real) | NonFinite
}
