/** Failure-carrying datatypes shared by the frame extractor, the publisher
    and the ingestion loop. */
module Wrappers {

  /** A value that may be absent: a frame that does not decode, a byte that
      does not occur. */
  datatype Option<+T> = None | Some(value: T)

  /** Either a value or the reason it could not be produced. */
  datatype Result<+R, +E> = Success(value: R) | Failure(error: E)
}
