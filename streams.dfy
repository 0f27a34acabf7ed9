/** A positioned byte reader: the parts of .NET's `Stream` and
    `BinaryReader` that BSA entry extraction relies on. */
module Streams {
  import opened FixedWidth

  /** The value `BinaryReader.ReadUInt32` decodes from four bytes (little-endian). */
  function LittleEndianUInt32(b: seq<bv8>): (r: u32)
    requires |b| == 4
  {
    b[0] as int + 0x100 * b[1] as int + 0x1_0000 * b[2] as int + 0x100_0000 * b[3] as int
  }

  /** A `BinaryReader` over a seekable stream: the stream's bytes and its
      current `Position`. Reading at or past the end throws in .NET
      (`EndOfStreamException`); here the read methods require the bytes
      they read to exist. */
  class Reader {
    const data: seq<bv8>
    var position: int

    constructor (data: seq<bv8>)
      ensures this.data == data && position == 0
    {
      this.data := data;
      position := 0;
    }

    /** Assigning `BaseStream.Position`, or `Seek(p, SeekOrigin.Begin)`:
        a negative position throws in .NET, one past the end does not. */
    method Seek(p: int)
      requires 0 <= p
      modifies this
      ensures position == p
    {
      position := p;
    }

    method ReadByte() returns (b: bv8)
      requires 0 <= position < |data|
      modifies this
      ensures b == data[old(position)]
      ensures position == old(position) + 1
    {
      b := data[position];
      position := position + 1;
    }

    method ReadUInt32() returns (v: u32)
      requires 0 <= position && position + 4 <= |data|
      modifies this
      ensures v == LittleEndianUInt32(data[old(position)..old(position) + 4])
      ensures position == old(position) + 4
    {
      v := LittleEndianUInt32(data[position..position + 4]);
      position := position + 4;
    }
  }
}
