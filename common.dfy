/** Values shared by every stage of the sprite import. */
module Common {

  /** A JavaScript value that may be `undefined`. */
  datatype Option<+T> = None | Some(value: T)

  /**
   * The ways a stage of the import can throw. The first three are the
   * framework errors `self.apos.error('notfound' | 'invalid' | 'error')`;
   * `TypeError` is what the JavaScript runtime throws when the code reads a
   * property of `undefined` or calls `forEach` on something that is not an
   * array; `ParseError` is a rejection from the XML parser.
   */
  datatype Failure = NotFound | Invalid | Error | TypeError | ParseError

  /** The outcome of a step that either produces a value or throws. */
  datatype Result<+T> = Ok(value: T) | Err(failure: Failure)
}
