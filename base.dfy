/** Shared vocabulary of the WXF encoder model: bytes, the exceptions the
    encoder raises, failure-carrying results, and the byte stream it writes to. */
module Base {

  /** One octet, as held in a Python `bytearray`. */
  type byte = b: int | 0 <= b < 256

  /** The exceptions the encoder core raises. */
  datatype Error =
    | TypeError             // a negative value handed to the varint encoder, or a
                            // value to serialize that is not iterable
    | IndexError            // a part counted in a frame whose declared length is
                            // negative, or a full varint buffer
    | SerializerException   // `WXFSerializerException`: the expression was truncated

  datatype Option<+T> = None | Some(value: T)

  datatype Result<+T> = Success(value: T) | Failure(error: Error)

  datatype Outcome = Pass | Fail(error: Error)

  /** A writable binary stream: everything written so far, in order. */
  class ByteStream {
    var data: seq<byte>

    constructor ()
      ensures data == []
    {
      data := [];
    }

    method Write(bs: seq<byte>)
      modifies this
      ensures data == old(data) + bs
    {
      data := data + bs;
    }
  }
}
