/** Optional values and error returns shared by the spectrogram modules. */
module Wrappers {

  /** An argument that may be absent (Python's `None`). */
  datatype Option<+T> = None | Some(value: T)

  /** Either a value or the exception the source would raise instead. */
  datatype Result<+T, +E> = Ok(value: T) | Err(error: E)
}
