/** The byte sink that index files are written through (Buffer in internal/codesearch/index/write.go). */
module Buffers {
  import opened Bytes

  class Buffer {
    var data: Str

    constructor ()
      ensures data == []
    {
      data := [];
    }

    method WriteByte(x: Byte)
      modifies this
      ensures data == old(data) + [x]
    {
      data := data + [x];
    }

    method Write(x: Str)
      modifies this
      ensures data == old(data) + x
    {
      data := data + x;
    }

    function Offset(): nat
      reads this
    {
      |data|
    }
  }
}
