/** Failure-carrying datatypes shared by every service of the model.
    The services signal failure by throwing an `Error` whose message is the
    only thing callers see; `Err(msg)` carries that message. */
module Results {

  /** A value that may be absent: an `undefined` request field, a missing
      header, `NaN` from a numeric parse, a lookup that found nothing. */
  datatype Option<+T> = None | Some(value: T)

  /** The outcome of a service call: a value, or the message of the thrown error. */
  datatype Result<+T> = Ok(value: T) | Err(msg: string)
}
