/** The older `CMemoryStream` of bstream.cpp: a read-only view of a caller's
    buffer with a position and a size, and none of the checks of the newer
    class. Its seek clamps instead of failing, and its reads do not look at
    the size at all; the bounds of their `memcpy` are preconditions here. */
module LegacyBStream {
  import opened Endian
  import opened Ints

  class MemoryStream {
    var buffer: array<bv8>
    var position: nat
    var size: nat
    var order: Endianess
    /** The byte order of the host, given to the constructor. */
    var systemOrder: Endianess

    /** Nothing ties the size to the length of the caller's buffer. */
    constructor (ptr: array<bv8>, size: nat, ord: Endianess, host: Endianess)
      ensures buffer == ptr && position == 0 && this.size == size
      ensures order == ord && systemOrder == host
    {
      buffer := ptr;
      position := 0;
      this.size := size;
      order := ord;
      systemOrder := host;
    }

    method GetSize() returns (s: nat)
      ensures s == size
    {
      s := size;
    }

    /** Moves to `pos` unless it lies beyond the size, in which case the
        position stays where it was. */
    method Seek(pos: nat)
      modifies this`position
      ensures position == if pos > size then old(position) else pos
      ensures position <= size || position == old(position)
    {
      position := if pos > size then position else pos;
    }

    method ReadInt8() returns (r: int8)
      requires position < buffer.Length
      modifies this`position
      ensures Bits8(r) == buffer[old(position)]
      ensures position == old(position) + 1
    {
      r := AsInt8(buffer[position]);
      SignedRoundTrip8(r, buffer[position]);
      position := position + 1;
    }

    method ReadUInt8() returns (r: bv8)
      requires position < buffer.Length
      modifies this`position
      ensures r == buffer[old(position)]
      ensures position == old(position) + 1
    {
      r := buffer[position];
      position := position + 1;
    }

    method ReadInt16() returns (r: int16)
      requires position + 2 <= buffer.Length
      modifies this`position
      ensures Bits16(r) == Decode16(buffer[old(position)..old(position) + 2], order)
      ensures position == old(position) + 2
    {
      var u := ReadUInt16();
      r := AsInt16(u);
      SignedRoundTrip16(r, u);
    }

    /** Two bytes copied into a host integer and swapped when the stream
        order is not the host order: the stream-order value of the bytes. */
    method ReadUInt16() returns (r: bv16)
      requires position + 2 <= buffer.Length
      modifies this`position
      ensures r == Decode16(buffer[old(position)..old(position) + 2], order)
      ensures position == old(position) + 2
    {
      var bytes := buffer[position..position + 2];
      var raw := Decode16(bytes, systemOrder);
      position := position + 2;
      r := if order != systemOrder then Swap16(raw) else raw;
      LoadInStreamOrder16(bytes, order, systemOrder);
    }

    method ReadUInt32() returns (r: bv32)
      requires position + 4 <= buffer.Length
      modifies this`position
      ensures r == Decode32(buffer[old(position)..old(position) + 4], order)
      ensures position == old(position) + 4
    {
      var bytes := buffer[position..position + 4];
      var raw := Decode32(bytes, systemOrder);
      position := position + 4;
      r := if order != systemOrder then Swap32(raw) else raw;
      LoadInStreamOrder32(bytes, order, systemOrder);
    }

    method ReadInt32() returns (r: int32)
      requires position + 4 <= buffer.Length
      modifies this`position
      ensures Bits32(r) == Decode32(buffer[old(position)..old(position) + 4], order)
      ensures position == old(position) + 4
    {
      var u := ReadUInt32();
      r := AsInt32(u);
      SignedRoundTrip32(r, u);
    }
  }
}
