/** The errors of the body readers and writers. */
module BodyErrors {
  import opened Bytes
  import opened FieldSection

  /** `WriteZero` is the kind the writers make up themselves; any other kind is the transport's. */
  datatype IoError = WriteZero | Transport(code: int)

  datatype TrailerError =
    | BadField(error: FieldError)
    | MaxLengthExceeded(max: nat)

  datatype BodyError =
    | BodyOverflow(max: u64)
    | BodyWriteError(io: IoError)
    | BodyReadError(io: IoError)
    | IncompleteBody(expected: nat, actual: nat)
    | InvalidChunkHeader
    | ChunkHeaderTooLong(limit: nat)
    | IncompleteChunkHeader(expected: nat, actual: nat)
    | IncompleteChunkFooter(expected: nat, actual: nat)
    | IncompleteFinish(expected: nat, actual: nat)
    | UnflushedFinish
    | UnflushedAbort
    | TrailerFault(trailer: TrailerError)
    | UnexpectedEof
    | InvalidChunkFooter(wanted: byte, got: byte)
    | ReadAfterError
}
