/** Failure-carrying datatypes shared by every component of the storage engine.
    A Java `null` is modelled as `None`, and each Java exception the engine lets
    escape is one `Error` kind carried by `Err`. */
module Wrappers {

  /** An unsigned byte as stored in a file; Java's signed view is `SignedByte`. */
  type Byte = b: int | 0 <= b < 256

  /** The value of a byte read as Java's signed `byte`. */
  function SignedByte(b: Byte): (r: int)
    ensures -128 <= r < 128
    ensures r % 256 == b
  {
    if b < 128 then b else b - 256
  }

  /** A possibly-null Java reference. */
  datatype Option<T> = None | Some(value: T)

  /** The exceptions the storage engine lets escape to its caller. */
  datatype Error =
    | IllegalArgument     // IllegalArgumentException: malformed key, value, name or column types
    | IllegalState        // IllegalStateException: closed provider, removing an unknown table
    | IndexOutOfBounds    // IndexOutOfBoundsException: wrong number of row values
    | ColumnFormat        // ColumnFormatException: a row value that does not fit its column
    | IO                  // IOException: a failed write to disk
    | ValidityCheckFailed // ValidityCheckFailedException: a checked structural failure
    | Runtime             // RuntimeException and other unchecked failures (wrapped or raw)

  /** Either a returned value or the exception thrown instead. */
  datatype Result<T> = Ok(value: T) | Err(error: Error)

  /** The value a map holds for a key, or null when the key is absent (Java's `Map.get`). */
  function Find<K, T>(m: map<K, T>, k: K): Option<T>
  {
    if k in m then Some(m[k]) else None
  }
}
