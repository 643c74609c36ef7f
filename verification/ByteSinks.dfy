/** Where decompressed bytes go. */
module ByteSinks {
  import opened Common

  /** The bytes handed to a writer; the decompressors of strings and of JSON share one. */
  class ByteSink {
    var bytes: seq<byte>

    constructor ()
      ensures bytes == []
    {
      bytes := [];
    }

    method WriteByte(b: byte)
      modifies this
      ensures bytes == old(bytes) + [b]
    {
      bytes := bytes + [b];
    }
  }
}
