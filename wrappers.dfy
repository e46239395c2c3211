/** Optional values and remote outcomes shared by every module of the model. */
module Wrappers {

  /** A value that may be missing: TypeScript's `T | null` or `T | undefined`. */
  datatype Option<+T> = None | Some(value: T)

  /** The outcome of a call to the hosted table: the data, or an opaque failure
      (the client does not tell its callers which kind of failure occurred). */
  datatype Result<+T> = Ok(value: T) | Failure
}
