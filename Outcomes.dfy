/** Failure-carrying results for the tester's operations. Every `throw` (common/tester.js)
    and every failing chai `assert` (wasm/tester.js) becomes a `Failure` value. */
module Outcomes {

  datatype Option<+T> = None | Some(value: T)

  /** Why a tester operation stopped. */
  datatype Failure =
      /** "Output variable not defined: <name>" */
    | OutputNotDefined(name: string)
      /** "Invalid output format: <prefix> <out>", with `out` rendered as JS renders an array */
    | InvalidOutputFormat(prefix: string, shown: string)
      /** an expected leaf whose decimal text differs from the witness entry's */
    | AssertionFailed(prefix: string, expected: string, actual: string)
      /** the TypeError raised by calling toString on an undefined witness entry */
    | UndefinedWitnessValue(prefix: string)
      /** "Constraint doesn't match" (no index is reported) */
    | ConstraintDoesNotMatch
      /** the TypeError raised by converting an undefined witness entry into a field element */
    | WitnessEntryMissing

  datatype Result<+T> = Ok(value: T) | Err(failure: Failure) {
    predicate IsFailure() { Err? }
    function PropagateFailure<U>(): Result<U> requires Err? { Err(failure) }
    function Extract(): T requires Ok? { value }
  }

  datatype Outcome = Pass | Fail(failure: Failure)
}
