/** Failure-compatible wrappers shared by the model: an absent value, and the
    outcome of an operation that can raise one of the exceptions the pipeline
    lets escape (a failed assertion, a missing attribute or key, an empty
    document list, an unparsable query). */
module Basics {

  datatype Option<+T> = None | Some(value: T)

  /** The exceptions the modelled code can raise. */
  datatype Error =
    | AssertionFailed            // `assert doc is not None` in the element locator
    | AttributeMissing           // an attribute looked up on an absent element
    | KeyMissing(key: string)    // `attrib[key]` for an attribute that is not there
    | IndexOutOfRange            // `tei_list[0]` on an empty document list
    | QuerySyntax                // a path query that cannot be parsed

  datatype Result<+T> = Ok(value: T) | Err(error: Error) {
    predicate IsFailure() { Err? }

    function PropagateFailure<U>(): Result<U>
      requires Err?
    {
      Err(error)
    }

    function Extract(): T
      requires Ok?
    {
      value
    }
  }
}
