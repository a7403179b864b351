/** Failure-carrying values shared by the cluster model, and the Python exceptions
    that the cluster's operations can raise. */
module Errors {

  datatype Option<+T> = None | Some(value: T)

  /** The exceptions of the modelled code, one constructor per raise site. */
  datatype Error =
    | NotImplemented       // constructed without both a submit and a cancel command
    | NoneConcatenation    // `extra += ...` with an interface given while extra is None
    | MissingName          // a worker descriptor without a 'name' entry (KeyError)
    | NoSlotSegment        // `name.split('-')[-2]` on a name without '-' (IndexError)
    | NotAnInteger         // `int(...)` of a segment that is not a decimal number (ValueError)
    | UnknownSlot(slot: int) // `self.jobs[w]` for a slot that has no job (KeyError)

  datatype Result<+T> = Ok(value: T) | Err(error: Error)

  datatype Outcome = Pass | Fail(error: Error)
}
