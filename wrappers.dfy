/** Nullable values and thrown exceptions, as values. */
module Wrappers {

  /** A C# reference that may be null: `None` is null. */
  datatype Option<+T> = None | Some(value: T)

  /** The outcome of a call that either returns a value or throws. */
  datatype Result<+R, +E> = Success(value: R) | Failure(error: E)

  /** The .NET exceptions the derived accessors can throw. */
  datatype Exception =
    | IndexOutOfRange          // string indexer past the end
    | ArgumentOutOfRange       // String.Substring with a negative length
    | DuplicateKey(key: string) // Dictionary.Add of a key already present
}
