/** The growable byte buffer every other component assembles its messages in.
    The C# class keeps a MemoryStream; here its contents are a sequence field. */
module Builder {
  import opened Bytes

  class ByteArrayBuilder {
    /** The bytes written so far, in append order. */
    var stream: seq<byte>

    constructor ()
      ensures stream == [] && Length() == 0
    {
      stream := [];
    }

    /** Appends one byte at the end; earlier bytes are unchanged. */
    method Append(v: byte)
      modifies this
      ensures stream == old(stream) + [v]
      ensures Length() == old(Length()) + 1
      ensures stream[..old(Length())] == old(stream) && stream[old(Length())] == v
    {
      stream := stream + [v];
    }

    /** Appends all of `vs`, in order (the C# overload `Append(byte[])`). */
    method AppendBytes(vs: seq<byte>)
      modifies this
      ensures stream == old(stream) + vs
      ensures Length() == old(Length()) + |vs|
    {
      stream := stream + vs;
    }

    /** The contents in append order; the builder is not modified. */
    method GetBytes() returns (r: seq<byte>)
      ensures r == stream && |r| == Length()
    {
      r := stream;
    }

    /** The number of bytes appended since construction or the last Clear. */
    function Length(): (n: nat)
      reads this
      ensures n == |stream|
    {
      |stream|
    }

    /** Drops the contents: the builder is empty again. */
    method Clear()
      modifies this
      ensures stream == [] && Length() == 0
    {
      stream := [];
    }
  }
}
