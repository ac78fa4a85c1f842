/** The part of bytes.Buffer the key generator uses: a growable byte buffer that is
    reset, appended to, and read out. */
module ByteBuffer {
  import opened GoTypes

  class Buffer {
    /** The unread portion of the buffer (the generator never reads from it). */
    var data: Bytes

    constructor ()
      ensures data == []
    {
      data := [];
    }

    /** Empties the buffer; what an earlier user left in it is gone. */
    method Reset()
      modifies this
      ensures data == []
    {
      data := [];
    }

    method WriteString(s: Bytes)
      modifies this
      ensures data == old(data) + s
    {
      data := data + s;
    }

    method WriteByte(c: Byte)
      modifies this
      ensures data == old(data) + [c]
    {
      data := data + [c];
    }

    /** b.Bytes() and b.String(): the contents, unchanged. */
    function Contents(): Bytes
      reads this
    {
      data
    }
  }
}
