/** The I/O vocabulary shared by the sniffer and the relay: what one `Read` of a
    connection hands back. */
module Io {
  import opened Wrappers
  import opened Strings

  /** A non-nil Go error from a connection: `io.EOF`, or any other failure. */
  datatype IoError = EOF | Failed(reason: string)

  /** One call of `Read`: the bytes it produced (its `n` is their count) and its
      error, `None` standing for Go's nil. */
  datatype ReadResult = ReadResult(data: seq<byte>, err: Option<IoError>)
}
