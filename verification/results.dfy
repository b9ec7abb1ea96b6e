/** Outcomes of the operations whose Go code panics on bad data. */
module Results {

  /** The conditions under which the Go code panics, one constructor each. */
  datatype Error =
    | SectionNotSupported(section: string)
    | TooFewPlaceholders
    | RuleTooShort(rule: seq<string>, count: nat)
    | EmptyKey(line: string)
    | UndefinedAssertion(section: string, key: string)

  /** Either the value the Go code computes, or the panic it raises instead. */
  datatype Result<+T> = Success(value: T) | Failure(error: Error) {

    predicate IsFailure() {
      Failure?
    }

    function PropagateFailure<U>(): Result<U>
      requires Failure?
    {
      Failure(error)
    }

    function Extract(): T
      requires Success?
    {
      value
    }
  }
}
