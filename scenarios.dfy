/** Clients of the memory stream that exercise the behaviour a format author
    relies on: values written are read back, the byte layout follows the
    stream order on every host, the offset patch records the position, and
    growth keeps to the policy of `Reserve`, including its odd size
    bookkeeping. */
module Scenarios {
  import opened Endian
  import opened Ints
  import opened Buffer
  import opened BStream

  // ---------------------------------------------------------------------
  // Writes that stay within the capacity
  // ---------------------------------------------------------------------

  /** A one-byte write within the capacity: the byte lands at the position,
      the array, the size and the capacity stay as they were. */
  method PutByte(s: MemoryStream, v: bv8)
    requires s.Valid() && s.position + 1 <= s.capacity
    modifies s`buffer, s`capacity, s`size, s`position, s.buffer
    ensures s.Valid() && s.buffer == old(s.buffer)
    ensures s.buffer[..] == Spliced(old(s.buffer[..]), old(s.position), [v])
    ensures s.size == old(s.size) && s.capacity == old(s.capacity) && s.position == old(s.position) + 1
  {
    StoreInPlace(s.State(), s.hasInternalBuffer, s.position + 1, s.position, [v]);
    s.WriteUInt8(v);
  }

  method PutInt8(s: MemoryStream, v: int8)
    requires s.Valid() && s.position + 1 <= s.capacity
    modifies s`buffer, s`capacity, s`size, s`position, s.buffer
    ensures s.Valid() && s.buffer == old(s.buffer)
    ensures s.buffer[..] == Spliced(old(s.buffer[..]), old(s.position), [Bits8(v)])
    ensures s.size == old(s.size) && s.capacity == old(s.capacity) && s.position == old(s.position) + 1
  {
    StoreInPlace(s.State(), s.hasInternalBuffer, s.position + 1, s.position, [Bits8(v)]);
    s.WriteInt8(v);
  }

  method PutUInt16(s: MemoryStream, v: bv16)
    requires s.Valid() && s.position + 2 <= s.capacity
    modifies s`buffer, s`capacity, s`size, s`position, s.buffer
    ensures s.Valid() && s.buffer == old(s.buffer)
    ensures s.buffer[..] == Spliced(old(s.buffer[..]), old(s.position), Encode16(v, s.order))
    ensures s.size == old(s.size) && s.capacity == old(s.capacity) && s.position == old(s.position) + 2
  {
    StoreInPlace(s.State(), s.hasInternalBuffer, s.position + 2, s.position, Encode16(v, s.order));
    s.WriteUInt16(v);
  }

  method PutInt16(s: MemoryStream, v: int16)
    requires s.Valid() && s.position + 2 <= s.capacity
    modifies s`buffer, s`capacity, s`size, s`position, s.buffer
    ensures s.Valid() && s.buffer == old(s.buffer)
    ensures s.buffer[..] == Spliced(old(s.buffer[..]), old(s.position), Encode16(Bits16(v), s.order))
    ensures s.size == old(s.size) && s.capacity == old(s.capacity) && s.position == old(s.position) + 2
  {
    StoreInPlace(s.State(), s.hasInternalBuffer, s.position + 2, s.position, Encode16(Bits16(v), s.order));
    s.WriteInt16(v);
  }

  method PutUInt32(s: MemoryStream, v: bv32)
    requires s.Valid() && s.position + 4 <= s.capacity
    modifies s`buffer, s`capacity, s`size, s`position, s.buffer
    ensures s.Valid() && s.buffer == old(s.buffer)
    ensures s.buffer[..] == Spliced(old(s.buffer[..]), old(s.position), Encode32(v, s.order))
    ensures s.size == old(s.size) && s.capacity == old(s.capacity) && s.position == old(s.position) + 4
  {
    StoreInPlace(s.State(), s.hasInternalBuffer, s.position + 4, s.position, Encode32(v, s.order));
    s.WriteUInt32(v);
  }

  method PutInt32(s: MemoryStream, v: int32)
    requires s.Valid() && s.position + 4 <= s.capacity
    modifies s`buffer, s`capacity, s`size, s`position, s.buffer
    ensures s.Valid() && s.buffer == old(s.buffer)
    ensures s.buffer[..] == Spliced(old(s.buffer[..]), old(s.position), Encode32(Bits32(v), s.order))
    ensures s.size == old(s.size) && s.capacity == old(s.capacity) && s.position == old(s.position) + 4
  {
    StoreInPlace(s.State(), s.hasInternalBuffer, s.position + 4, s.position, Encode32(Bits32(v), s.order));
    s.WriteInt32(v);
  }

  method PutBytes(s: MemoryStream, data: seq<bv8>)
    requires s.Valid() && s.position + |data| <= s.capacity
    modifies s`buffer, s`capacity, s`size, s`position, s.buffer
    ensures s.Valid() && s.buffer == old(s.buffer)
    ensures s.buffer[..] == Spliced(old(s.buffer[..]), old(s.position), data)
    ensures s.size == old(s.size) && s.capacity == old(s.capacity) && s.position == old(s.position) + |data|
  {
    StoreInPlace(s.State(), s.hasInternalBuffer, s.position + |data|, s.position, data);
    s.WriteBytes(data);
  }

  /** `writeOffsetAt32(at)` when the capacity covers both the slot and the
      four bytes beyond the position that it reserves. */
  method PatchOffset32(s: MemoryStream, at: nat)
    requires s.Valid() && s.position + 4 <= s.capacity && at + 4 <= s.capacity
    modifies s`buffer, s`capacity, s`size, s.buffer
    ensures s.Valid() && s.buffer == old(s.buffer)
    ensures s.buffer[..] == Spliced(old(s.buffer[..]), at, Encode32(Low32(s.position), s.order))
    ensures s.size == old(s.size) && s.capacity == old(s.capacity)
  {
    StoreInPlace(s.State(), s.hasInternalBuffer, s.position + 4, at, Encode32(Low32(s.position), s.order));
    s.WriteOffsetAt32(at);
  }

  /** Switches an owned stream to reading from the start. */
  method Rewind(s: MemoryStream)
    requires s.hasInternalBuffer
    modifies s`openMode, s`position, s`size
    ensures s.openMode == In && s.position == 0 && s.size == old(s.size)
  {
    var ok := s.ChangeMode(In);
    ok := s.Seek(0, false);
  }

  // ---------------------------------------------------------------------
  // Round trips and layouts
  // ---------------------------------------------------------------------

  /** A value of each width written to a new owned stream and read back from
      its start is the value written, in either stream order on either host. */
  method RoundTripInt8(v: int8, ord: Endianess, host: Endianess) returns (r: int8)
    ensures r == v
  {
    var s := new MemoryStream.Owned(1, ord, Out, host);
    PutInt8(s, v);
    SplicedContents(Zeros(1), 0, [Bits8(v)]);
    Rewind(s);
    r := s.ReadInt8();
    SignedRoundTrip8(r, 0);
    SignedRoundTrip8(v, 0);
  }

  method RoundTripUInt8(v: bv8, ord: Endianess, host: Endianess) returns (r: bv8)
    ensures r == v
  {
    var s := new MemoryStream.Owned(1, ord, Out, host);
    PutByte(s, v);
    SplicedContents(Zeros(1), 0, [v]);
    Rewind(s);
    r := s.ReadUInt8();
  }

  method RoundTripUInt16(v: bv16, ord: Endianess, host: Endianess) returns (r: bv16)
    ensures r == v
  {
    var s := new MemoryStream.Owned(2, ord, Out, host);
    PutUInt16(s, v);
    SplicedContents(Zeros(2), 0, Encode16(v, ord));
    Rewind(s);
    r := s.ReadUInt16();
  }

  method RoundTripInt16(v: int16, ord: Endianess, host: Endianess) returns (r: int16)
    ensures r == v
  {
    var s := new MemoryStream.Owned(2, ord, Out, host);
    PutInt16(s, v);
    SplicedContents(Zeros(2), 0, Encode16(Bits16(v), ord));
    Rewind(s);
    r := s.ReadInt16();
    BitsInjective16(r, v);
  }

  method RoundTripUInt32(v: bv32, ord: Endianess, host: Endianess) returns (r: bv32)
    ensures r == v
  {
    var s := new MemoryStream.Owned(4, ord, Out, host);
    PutUInt32(s, v);
    SplicedContents(Zeros(4), 0, Encode32(v, ord));
    Rewind(s);
    r := s.ReadUInt32();
  }

  method RoundTripInt32(v: int32, ord: Endianess, host: Endianess) returns (r: int32)
    ensures r == v
  {
    var s := new MemoryStream.Owned(4, ord, Out, host);
    PutInt32(s, v);
    SplicedContents(Zeros(4), 0, Encode32(Bits32(v), ord));
    Rewind(s);
    r := s.ReadInt32();
    BitsInjective32(r, v);
  }

  /** The bytes `writeUInt32(0x01020304)` leaves in the buffer: most
      significant first in a big-endian stream, least significant first in a
      little-endian one, whatever the host. */
  method ByteOrder(ord: Endianess, host: Endianess) returns (bytes: seq<bv8>)
    ensures ord == Big ==> bytes == [0x01, 0x02, 0x03, 0x04]
    ensures ord == Little ==> bytes == [0x04, 0x03, 0x02, 0x01]
  {
    var s := new MemoryStream.Owned(4, ord, Out, host);
    PutUInt32(s, 0x01020304);
    SplicedContents(Zeros(4), 0, Encode32(0x01020304, ord));
    Rewind(s);
    bytes := s.ReadString(4);
    Layout32Example();
  }

  /** An owned little-endian stream of size 4: four single-byte writes leave
      the size at 4; read back from the start, the first byte is 0xFF and the
      four bytes as one little-endian value are 0x020100FF. */
  method LittleEndianBytes(host: Endianess) returns (size: nat, first: bv8, whole: bv32)
    ensures size == 4 && first == 0xFF && whole == 0x020100FF
  {
    var s := new MemoryStream.Owned(4, Little, Out, host);
    PutByte(s, 0xFF);
    PutByte(s, 0x00);
    PutByte(s, 0x01);
    PutByte(s, 0x02);
    assert s.buffer[..] == [0xFF, 0x00, 0x01, 0x02];
    size := s.GetSize();
    Rewind(s);
    first := s.ReadUInt8();
    var ok := s.Seek(0, false);
    whole := s.ReadUInt32();
  }

  /** A new stream holding a placeholder word followed by `data`, with the
      word then patched by `writeOffsetAt32(0)`. The stream is created large
      enough that the patch's `Reserve(position + 4)` does not reallocate. */
  method PatchedHeader(data: seq<bv8>, ord: Endianess, host: Endianess) returns (s: MemoryStream)
    ensures fresh(s) && fresh(s.buffer) && s.hasInternalBuffer && s.order == ord
    ensures s.position == 4 + |data| && s.size == 8 + |data| && s.buffer.Length == 8 + |data|
    ensures s.buffer[0..4] == Encode32(Low32(4 + |data|), ord)
  {
    s := new MemoryStream.Owned(8 + |data|, ord, Out, host);
    PutUInt32(s, 0);
    PutBytes(s, data);
    ghost var before := s.buffer[..];
    var slot := Encode32(Low32(s.position), ord);
    PatchOffset32(s, 0);
    SplicedContents(before, 0, slot);
    assert s.buffer[0..4] == slot;
  }

  /** Reading the patched slot back: it holds the position after `data`,
      that is 4 + |data| (modulo 2^32), and not |data| alone. */
  method OffsetPatch(data: seq<bv8>, ord: Endianess, host: Endianess) returns (offset: bv32, position: nat)
    ensures Unsigned32(offset) == (4 + |data|) % 0x1_0000_0000
    ensures position == 4 + |data|
  {
    var s := PatchedHeader(data, ord, host);
    position := s.Tell();
    Rewind(s);
    offset := s.ReadUInt32();
    assert offset == Low32(position);
  }

  // ---------------------------------------------------------------------
  // Growth
  // ---------------------------------------------------------------------

  /** A one-byte write to an owned stream whose reallocation copy stays in
      bounds: the capacity and the size follow `Reserve`, the byte lands at
      the position, and when the position is within the size and the
      capacity every earlier byte is kept, even across a reallocation. */
  method GrowByte(s: MemoryStream, v: bv8)
    requires s.Valid() && s.hasInternalBuffer
    requires s.capacity < s.position + 1 ==> s.size <= s.capacity
    modifies s`buffer, s`capacity, s`size, s`position, s.buffer
    ensures s.Valid() && s.position == old(s.position) + 1
    ensures if old(s.capacity) < old(s.position) + 1 then fresh(s.buffer) else s.buffer == old(s.buffer)
    ensures if old(s.capacity) < old(s.position) + 1 then
        s.capacity == GrownCapacity(old(s.capacity), old(s.position) + 1) && s.size == old(s.size) + old(s.position) + 1
      else
        s.capacity == old(s.capacity) && s.size == old(s.size)
    ensures s.buffer[old(s.position)] == v
    ensures old(s.position) <= old(s.size) && old(s.position) <= old(s.capacity) ==>
      s.buffer[..old(s.position)] == old(s.buffer[..s.position])
  {
    var b := s.State();
    var at := s.position;
    OwnedWriteEffect(b, at, [v]);
    StoreEffect(b, true, at + 1, at, [v]);
    if at <= b.size {
      WriteKeepsEarlierBytes(b, true, at, [v]);
    }
    s.WriteUInt8(v);
    assert s.buffer[..][at..at + 1] == [v];
  }

  /** Four one-byte writes FF 00 01 02 to an empty owned stream, read back
      from the start. The capacity goes 0, 1, 3, 6 and the size 1, 3, 3, 7:
      the bytes survive each reallocation, but the size ends at 7, not 4. */
  method GrowAndReadBack(host: Endianess) returns (bytes: seq<bv8>, whole: bv32, size: nat, capacity: nat)
    ensures bytes == [0xFF, 0x00, 0x01, 0x02] && whole == 0x020100FF
    ensures size == 7 && capacity == 6
  {
    var s := new MemoryStream.Owned(0, Little, Out, host);
    GrowByte(s, 0xFF);
    assert s.buffer[..1] == [0xFF];
    GrowByte(s, 0x00);
    assert s.buffer[..2] == [0xFF, 0x00];
    GrowByte(s, 0x01);
    assert s.buffer[..3] == [0xFF, 0x00, 0x01];
    GrowByte(s, 0x02);
    assert s.buffer[..4] == [0xFF, 0x00, 0x01, 0x02];
    size := s.GetSize();
    capacity := s.GetCapacity();
    Rewind(s);
    bytes := s.ReadString(4);
    var ok := s.Seek(0, false);
    whole := s.ReadUInt32();
  }

  /** Six one-byte writes to an empty owned stream. Each growth adds the
      amount reserved to the size, so the size ends at 7 with the capacity
      at 6: the size exceeds the capacity, and the seventh write's growth
      would copy 7 bytes out of a 6-byte buffer. */
  method GrowthOvershoots(host: Endianess) returns (size: nat, capacity: nat, position: nat)
    ensures size == 7 && capacity == 6 && position == 6
  {
    var s := new MemoryStream.Owned(0, Little, Out, host);
    GrowByte(s, 1);
    GrowByte(s, 2);
    GrowByte(s, 3);
    GrowByte(s, 4);
    GrowByte(s, 5);
    GrowByte(s, 6);
    size := s.GetSize();
    capacity := s.GetCapacity();
    position := s.Tell();
  }
}
