/** Optional values, the failure taxonomy of the hydration engine, and results. */
module Errors {

  datatype Option<+T> = None | Some(value: T)

  /** The exceptions the engine can raise. `InvalidFormat` stands for a
      `ValueException` from a value coercion, `UnsupportedMetadata` for the
      engine's defensive `RuntimeException`s; the other four are the factories
      of the data exception class. */
  datatype Error =
    | MissingRequiredChild(key: string)
    | InvalidFormat(key: string)
    | DuplicateReferenceId(id: string)
    | MissingReferenceId
    | ReferencedElementNotFound(id: string)
    | UnsupportedMetadata(cls: string)

  /** A computation that either returns a value or throws an `Error`. */
  datatype Result<+T> = Ok(value: T) | Err(error: Error)
}
