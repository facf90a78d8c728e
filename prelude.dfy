/** Small shared vocabulary: optional values, results, and Go's byte. */
module Prelude {

  datatype Option<T> = None | Some(value: T)

  datatype Result<T, E> = Success(value: T) | Failure(error: E)

  /** Go's `byte`; arithmetic on it is done in `int`. */
  type byte = b: int | 0 <= b < 256

  /** A Go `[]byte`, or the bytes of a Go `string` (Go's `len` counts these). */
  type Bytes = seq<byte>
}
