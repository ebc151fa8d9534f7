/** Small types shared by every module. */
module Prelude {
  datatype Option<+T> = None | Some(value: T)

  datatype Result<+T, +E> = Ok(value: T) | Err(error: E)

  type byte = x: int | 0 <= x < 256

  /** A run up to its last event. */
  function Before<T>(run: seq<T>): seq<T>
    requires run != []
  {
    run[..|run| - 1]
  }

  function Last<T>(run: seq<T>): T
    requires run != []
  {
    run[|run| - 1]
  }

  /** A SHA-256 digest. Hashing is modelled as injective: a digest remembers what it is the digest of. */
  datatype Digest = Sha256(text: string)
}
