# bStream memory stream, modelled in Dafny

bStream is a small C++ library for reading and writing binary formats with
explicit byte order. This project models its memory-backed stream,
`CMemoryStream` in `bstream.h`. That stream is a byte buffer with a
position, a logical size and a capacity; it is borrowed from the caller or
owned and grown by the stream. The project also models the older read-only
`CMemoryStream` in `bstream.cpp` and the byte-swapping functions `swap16` and
`swap32` that both rely on.

Modules:

- `Endian` (endian.dfy): `swap16`/`swap32`, and the byte layout of a 16- or
  32-bit value in big- or little-endian order (`Encode16`, `Decode16`, …).
  It also holds the conditional swap every multi-byte read and write applies
  (`Convert16`/`Convert32`).
- `Bytes`, `Ints` (ints.dfy): `int8_t`, `int16_t` and `int32_t` as newtypes.
  A signed value is stored as the unsigned value with the same
  two's-complement bits (`Bits16`, `AsInt16`, …). `Low16`/`Low32` truncate a
  position to 16 or 32 bits.
- `Align` (align.dfy): the padding `alignTo` computes, with the unary minus
  of `std::size_t` wrapping modulo 2^64.
- `Buffer` (buffer.dfy): what `Reserve`, `setSize` and a store do to the
  bytes, the size and the capacity, as functions on a `BufferState` value.
- `BStream` (memory_stream.dfy): the class `MemoryStream`, with the fields
  of `CMemoryStream` and one method per member function. Each method that
  changes the buffer states its new state (`State()`) as one of the
  `Buffer` functions applied to the old state.
- `LegacyBStream` (legacy_stream.dfy): the `CMemoryStream` of `bstream.cpp`.
- `Scenarios` (scenarios.dfy): clients that exercise the class:
  - round trips, and the byte layout per stream order
  - the offset patch
  - growth by single-byte writes

Modelling choices:

- Bytes are `bv8`, and buffers are `array<bv8>`.
- A `memcpy` of an integer to or from memory is the layout of the value in
  the host's byte order. The host order comes from `getSystemEndianess()`
  in the source. Here it is a constructor parameter `host`, kept in the
  field `systemOrder`, so every property is proved for both hosts.
- The source checks read preconditions with `assert`; here they are
  `requires`.
- Each `memcpy` must stay in bounds, which the source does not check. That
  is a `requires` too: the array holds the bytes copied. For the
  reallocation copy of `Reserve` and `setSize` it is `CopyFits`, meaning
  the size does not exceed the old capacity.
- Sizes are unbounded `nat`. Wrap-around of `std::size_t` is modelled only
  where the source relies on it: `alignTo`, and the truncation of the
  position in the offset patches.

Where the behaviour one would expect of the stream and its code differ,
the model follows the code:

- **No size ≤ capacity invariant.** One might expect
  `position ≤ size ≤ capacity`; the code does not keep it. `Reserve` adds `needed` to the size when
  it grows (`mSize += needed`), so the size can pass the capacity.
  `Scenarios.GrowthOvershoots` shows six one-byte writes to an empty owned
  stream ending with size 7 and capacity 6. The seventh write's growth
  would copy 7 bytes out of a 6-byte buffer. The model excludes that copy
  with `CopyFits`.
- **Writes ignore `Reserve`'s result.** On a borrowed buffer a write past
  the capacity goes past the `size` bytes the caller declared, and nothing
  stops it there. The model allows such a write only while it stays inside
  the array: the write methods require `StoreFits` (the copy lands inside
  the array), and the array given to `Borrowed` may be longer than `size`.
- **The size counts reservations, not bytes written.** Four one-byte
  writes leave `getSize()` at 4 only on a stream created with size 4
  (`Scenarios.LittleEndianBytes`). From an empty owned stream the same
  writes leave the size at 7 and the capacity at 6, with the four bytes
  intact (`Scenarios.GrowAndReadBack`).
- **Growth can drop bytes.** A write that grows the buffer keeps only the
  first `size` bytes. After `setSize` shrinks the size, that loses bytes
  before the position (`Buffer.WriteBeyondSizeLosesBytes`). When the
  position is within the size, earlier bytes are kept
  (`Buffer.WriteKeepsEarlierBytes`).
- **The offset patch stores the position, not the length written.** It
  stores the position when it is called. After a 4-byte placeholder and N
  bytes that is 4 + N, not N (`Scenarios.OffsetPatch`). The patch also
  reserves `position + width` bytes, which can grow the buffer even when
  the slot lies before the position.
- **Alignment uses wrapping negation.** `alignTo` pads to the next multiple
  only when the boundary is a power of two (`Align.AlignPaddingPowerOfTwo`).
  At position 1 with boundary 3 it pads nothing
  (`Align.AlignPaddingNotPowerOfTwo`).
- **Peeks read in place.** They read at the given offset directly; the
  position is never touched (the peek methods have no `modifies` clause).
  `peekString` checks the position against the size, not the offset.
- **Reads check only where they start.** `readUInt8` does not check the
  size. `readString` checks only that the position is below the size.
- **`seek` fails beyond the capacity for every buffer**, borrowed or owned.
  The condition is parsed as `(fromCurrent && position + pos > capacity) ||
  pos > capacity`, and a seek beyond the size extends the size.

## Model

| member | source | states |
|---|---|---|
| Endian.Swap16Reverses | bstream.h:259-261 | swap16 turns the big-endian layout of a value into its little-endian layout and back |
| Endian.Swap32Reverses | bstream.h:255-257 | swap32 turns the big-endian layout of a value into its little-endian layout and back |
| Endian.Swap16 | bstream.h:259-261 | byte 1 of swap16(r) is byte 0 of r and byte 0 is byte 1 |
| Endian.Swap32 | bstream.h:255-257 | byte k of swap32(r) is byte 3 - k of r, for every k |
| Endian.Swap16Involutive | bstream.h:259-261 | swapping twice gives the value back |
| Endian.Swap32Involutive | bstream.h:255-257 | swapping twice gives the value back |
| Endian.Swap32Example | bstream.h:255-257 | swap32(0x01020304) is 0x04030201 |
| Endian.Encode16 | bstream.h:982-990 | the two bytes a 16-bit variable is copied out as decode, in the same byte order, to the value again |
| Endian.Decode16 | bstream.h:737-749 | copying two bytes into a 16-bit variable makes the first byte the most significant one in big-endian order and the least significant one in little-endian order |
| Endian.Encode32 | bstream.h:1002-1010 | the four bytes a 32-bit variable is copied out as decode, in the same byte order, to the value again |
| Endian.Decode32 | bstream.h:751-763 | copying four bytes into a 32-bit variable makes the byte at index 3 - k (big-endian) or k (little-endian) its byte k |
| Endian.EncodeDecode16 | bstream.h:737-749 | laying out the value loaded from two bytes gives the bytes back |
| Endian.EncodeDecode32 | bstream.h:751-763 | laying out the value loaded from four bytes gives the bytes back |
| Endian.Layout32Example | bstream.h:1002-1010 | 0x01020304 is laid out 01 02 03 04 big-endian and 04 03 02 01 little-endian |
| Endian.Convert16 | bstream.h:982-990 | the value after the conditional swap, laid out in host order, is the stream-order layout of the original |
| Endian.Convert32 | bstream.h:1002-1010 | the value after the conditional swap, laid out in host order, is the stream-order layout of the original |
| Endian.LoadInStreamOrder16 | bstream.h:851-862 | two bytes loaded in host order and conditionally swapped are the value they denote in stream order, on either host |
| Endian.LoadInStreamOrder32 | bstream.h:864-875 | four bytes loaded in host order and conditionally swapped are the value they denote in stream order, on either host |
| Ints.SignedRoundTrip8 | bstream.h:707-713 | an int8_t and its bit pattern convert into each other both ways |
| Ints.SignedRoundTrip16 | bstream.h:723-735 | an int16_t and its bit pattern convert into each other both ways |
| Ints.SignedRoundTrip32 | bstream.h:765-777 | an int32_t and its bit pattern convert into each other both ways |
| Ints.BitsInjective16 | bstream.h:972-980 | two int16_t values have the same bits exactly when they are equal |
| Ints.BitsInjective32 | bstream.h:992-1000 | two int32_t values have the same bits exactly when they are equal |
| Ints.Low16 | bstream.h:1074 | mPosition & 0xFFFF denotes the position modulo 2^16 |
| Ints.Low32 | bstream.h:1083 | the position converted to uint32_t denotes it modulo 2^32 |
| Align.AlignPadding | bstream.h:1066 | the padding `(-mPosition % to) % to`, with the negation wrapping modulo 2^64, is less than the boundary |
| Align.PaddingValue | bstream.h:1066 | for a power-of-two boundary the padding is 0 on a multiple and otherwise the boundary minus the remainder |
| Align.AlignPaddingPowerOfTwo | bstream.h:1065-1070 | for a power-of-two boundary the padding is below the boundary, the padded position is aligned, no position in between is, and the padding is zero exactly when already aligned |
| Align.PaddedIsAligned | bstream.h:1065-1070 | for a power-of-two boundary the padded position is aligned and less than one boundary further on |
| Align.AlignPaddingNotPowerOfTwo | bstream.h:1066 | at position 1 with boundary 3 the wrapped computation pads nothing, although 1 is not a multiple of 3 |
| Buffer.GrownCapacity | bstream.h:944-949 | the capacity Reserve grows to is at least `needed` and at least twice the old one |
| Buffer.GrownCapacityBounds | bstream.h:944-948 | the grown capacity is at least `needed` and at least twice the old one, and is exactly double when doubling strictly exceeds `needed` |
| Buffer.Reserved | bstream.h:937-958 | after Reserve the buffer is still consistent, neither the capacity nor the size has shrunk, and an owned buffer has room for `needed` bytes |
| Buffer.ReserveEffect | bstream.h:937-958 | Reserve changes nothing when the capacity suffices or the buffer is borrowed; otherwise the capacity grows by the policy, the first size bytes are kept, the rest are zero and the size grows by `needed` |
| Buffer.ReserveMakesRoom | bstream.h:937-958 | Reserve returns true exactly when the capacity afterwards is at least `needed` |
| Buffer.Resized | bstream.h:917-934 | after setSize the buffer is consistent; when setSize succeeds the size is n and the capacity at least n, and when it fails nothing changes |
| Buffer.SetSizeEffect | bstream.h:917-934 | within the capacity only the size changes; beyond it a borrowed buffer is unchanged and an owned one is reallocated to exactly n bytes keeping the first size bytes; on success the size is n |
| Buffer.SplicedContents | bstream.h:1053-1057 | a memcpy puts the data in its range and leaves all other bytes |
| Buffer.StoreEffect | bstream.h:1053-1057 | after Reserve and a copy, the data lies at the offset, size and capacity are those Reserve left, and all other bytes are those Reserve left |
| Buffer.OwnedWriteFits | bstream.h:937-958 | on an owned buffer a write always has room once the reallocation copy is in bounds |
| Buffer.StoreInPlace | bstream.h:937-940 | within the capacity a store only replaces the stored bytes |
| Buffer.OwnedWriteEffect | bstream.h:937-958 | a write to an owned buffer leaves capacity and size as Reserve's growth policy and `mSize += needed` say |
| Buffer.WriteKeepsEarlierBytes | bstream.h:951-953 | a write at or below the size, or one that does not reallocate, keeps every byte before the position |
| Buffer.WriteBeyondSizeLosesBytes | bstream.h:951-953 | a reallocating write past the size drops a byte stored between the size and the position |
| BStream.MemoryStream.Borrowed | bstream.h:636-645 | a stream over the caller's buffer with position 0, size and capacity `size`, not owned |
| BStream.MemoryStream.Owned | bstream.h:647-656 | a stream over a fresh zero-filled owned buffer of `size` bytes with position 0 |
| BStream.MemoryStream.GetSize | bstream.h:658-660 | returns the size |
| BStream.MemoryStream.GetCapacity | bstream.h:662-664 | returns the capacity |
| BStream.MemoryStream.ChangeMode | bstream.h:667-675 | succeeds exactly on an owned buffer and only then changes the mode |
| BStream.MemoryStream.Seek | bstream.h:677-689 | succeeds exactly when the target is within the capacity; then the position is the target and the size grows to it; on failure nothing changes |
| BStream.MemoryStream.Skip | bstream.h:691-693 | advances only when the result stays strictly below the size |
| BStream.MemoryStream.Tell | bstream.h:695-697 | returns the position |
| BStream.MemoryStream.GetBuffer | bstream.h:699-701 | returns the buffer |
| BStream.MemoryStream.Load16 | bstream.h:851-862 | the loaded and conditionally swapped value is the stream-order value of the two bytes |
| BStream.MemoryStream.Load32 | bstream.h:864-875 | the loaded and conditionally swapped value is the stream-order value of the four bytes |
| BStream.MemoryStream.ReadInt8 | bstream.h:707-713 | the result has the bits of the byte at the position, which advances by 1 |
| BStream.MemoryStream.ReadUInt8 | bstream.h:715-721 | the byte at the position, which advances by 1; no size check |
| BStream.MemoryStream.ReadInt16 | bstream.h:723-735 | the result's bits are the stream-order value of the two bytes at the position, which advances by 2 |
| BStream.MemoryStream.ReadUInt16 | bstream.h:737-749 | the stream-order value of the two bytes at the position, which advances by 2 |
| BStream.MemoryStream.ReadUInt32 | bstream.h:751-763 | the stream-order value of the four bytes at the position, which advances by 4 |
| BStream.MemoryStream.ReadInt32 | bstream.h:765-777 | the result's bits are the stream-order value of the four bytes at the position, which advances by 4 |
| BStream.MemoryStream.PeekInt8 | bstream.h:824-829 | the result has the bits of the byte at `at`; the stream does not change |
| BStream.MemoryStream.PeekUInt8 | bstream.h:831-836 | the byte at `at`; the stream does not change |
| BStream.MemoryStream.PeekInt16 | bstream.h:838-849 | the result's bits are the stream-order value of the two bytes at `at` |
| BStream.MemoryStream.PeekUInt16 | bstream.h:851-862 | the stream-order value of the two bytes at `at` |
| BStream.MemoryStream.PeekUInt32 | bstream.h:864-875 | the stream-order value of the four bytes at `at` |
| BStream.MemoryStream.PeekInt32 | bstream.h:877-888 | the result's bits are the stream-order value of the four bytes at `at` |
| BStream.MemoryStream.ReadString | bstream.h:890-895 | the len bytes at the position, which advances by len; only the start is checked against the size |
| BStream.MemoryStream.PeekString | bstream.h:897-901 | the len bytes at `at`; the position, not `at`, is checked against the size |
| BStream.MemoryStream.ReadBytesTo | bstream.h:904-911 | when the len bytes lie within the size they are copied out and the position advances, the rest of `out` is untouched; otherwise nothing changes, and `out` may then be shorter than len |
| BStream.MemoryStream.CopyInto | bstream.h:951-952 | a fresh buffer of c bytes holding the first size old bytes followed by zeros |
| BStream.MemoryStream.Reserve | bstream.h:937-958 | the new state is Buffer.Reserved of the old, the result is ReserveSucceeds, and the array is fresh exactly when it grows |
| BStream.MemoryStream.SetSize | bstream.h:917-934 | the new state is Buffer.Resized of the old and the result is SetSizeSucceeds |
| BStream.MemoryStream.Store | bstream.h:1053-1056 | Reserve with its result ignored, then a copy: the new state is Buffer.Stored of the old |
| BStream.MemoryStream.StoreValue16 | bstream.h:1072-1079 | the conditional swap then a host-order copy stores the stream-order layout of the value |
| BStream.MemoryStream.StoreValue32 | bstream.h:1081-1088 | the conditional swap then a host-order copy stores the stream-order layout of the value |
| BStream.MemoryStream.WriteInt8 | bstream.h:960-964 | the new state is the byte of v's bits written at the position, which advances by 1 |
| BStream.MemoryStream.WriteUInt8 | bstream.h:966-970 | the new state is v written at the position, which advances by 1 |
| BStream.MemoryStream.WriteInt16 | bstream.h:972-980 | the stream-order layout of v's bits is written at the position, which advances by 2 |
| BStream.MemoryStream.WriteUInt16 | bstream.h:982-990 | the stream-order layout of v is written at the position, which advances by 2 |
| BStream.MemoryStream.WriteInt32 | bstream.h:992-1000 | the stream-order layout of v's bits is written at the position, which advances by 4 |
| BStream.MemoryStream.WriteUInt32 | bstream.h:1002-1010 | the stream-order layout of v is written at the position, which advances by 4 |
| BStream.MemoryStream.WriteBytes | bstream.h:1053-1057 | the bytes are written at the position unchanged, which advances by their number |
| BStream.MemoryStream.WriteString | bstream.h:1059-1063 | the characters are written at the position, which advances by their number |
| BStream.MemoryStream.AlignTo | bstream.h:1065-1070 | AlignPadding zero bytes are written at the position, which advances past them; for a power-of-two boundary it ends aligned and less than a boundary further on |
| BStream.MemoryStream.WriteOffsetAt16 | bstream.h:1072-1079 | after Reserve(position + 2), the stream-order layout of the position modulo 2^16 lies at `at`; the position does not move |
| BStream.MemoryStream.WriteOffsetAt32 | bstream.h:1081-1088 | after Reserve(position + 4), the stream-order layout of the position modulo 2^32 lies at `at`; the position does not move |
| BStream.ReadBack16 | bstream.h:982-990 | the two bytes a 16-bit write leaves at its offset load back as the value written in the same order |
| BStream.ReadBack32 | bstream.h:1002-1010 | the four bytes a 32-bit write leaves at its offset load back as the value written in the same order |
| LegacyBStream.MemoryStream.constructor | bstream.cpp:259-265 | a stream over the caller's buffer with position 0 and the given size and order |
| LegacyBStream.MemoryStream.GetSize | bstream.cpp:267-269 | returns the size |
| LegacyBStream.MemoryStream.Seek | bstream.cpp:271-273 | moves to pos unless it lies beyond the size, and then stays put |
| LegacyBStream.MemoryStream.ReadInt8 | bstream.cpp:277-282 | the result has the bits of the byte at the position, which advances by 1; no size check |
| LegacyBStream.MemoryStream.ReadUInt8 | bstream.cpp:284-289 | the byte at the position, which advances by 1 |
| LegacyBStream.MemoryStream.ReadInt16 | bstream.cpp:291-302 | the result's bits are the stream-order value of the two bytes at the position, which advances by 2 |
| LegacyBStream.MemoryStream.ReadUInt16 | bstream.cpp:304-315 | the stream-order value of the two bytes at the position, which advances by 2 |
| LegacyBStream.MemoryStream.ReadUInt32 | bstream.cpp:317-328 | the stream-order value of the four bytes at the position, which advances by 4 |
| LegacyBStream.MemoryStream.ReadInt32 | bstream.cpp:330-341 | the result's bits are the stream-order value of the four bytes at the position, which advances by 4 |
| Scenarios.PutByte | bstream.h:966-970 | a one-byte write within the capacity replaces one byte in the same array and leaves size and capacity |
| Scenarios.PutInt8 | bstream.h:960-964 | an 8-bit signed write within the capacity replaces one byte in place with the value's bits |
| Scenarios.PutUInt16 | bstream.h:982-990 | a 16-bit write within the capacity replaces two bytes in place |
| Scenarios.PutInt16 | bstream.h:972-980 | a 16-bit signed write within the capacity replaces two bytes in place |
| Scenarios.PutUInt32 | bstream.h:1002-1010 | a 32-bit write within the capacity replaces four bytes in place |
| Scenarios.PutInt32 | bstream.h:992-1000 | a 32-bit signed write within the capacity replaces four bytes in place |
| Scenarios.PutBytes | bstream.h:1053-1057 | a byte block written within the capacity replaces those bytes in place |
| Scenarios.PatchOffset32 | bstream.h:1081-1088 | an offset patch within the capacity replaces the slot only |
| Scenarios.Rewind | bstream.h:667-689 | changeMode(In) and seek(0) on an owned stream leave it reading from 0 with the size kept |
| Scenarios.RoundTripInt8 | bstream.h:960-964 | an int8_t written and read back is the same value, for both orders and both hosts |
| Scenarios.RoundTripUInt8 | bstream.h:966-970 | a uint8_t written and read back is the same value, for both orders and both hosts |
| Scenarios.RoundTripUInt16 | bstream.h:982-990 | a uint16_t written and read back is the same value, for both orders and both hosts |
| Scenarios.RoundTripInt16 | bstream.h:972-980 | an int16_t written and read back is the same value, for both orders and both hosts |
| Scenarios.RoundTripUInt32 | bstream.h:1002-1010 | a uint32_t written and read back is the same value, for both orders and both hosts |
| Scenarios.RoundTripInt32 | bstream.h:992-1000 | an int32_t written and read back is the same value, for both orders and both hosts |
| Scenarios.ByteOrder | bstream.h:1002-1010 | writeUInt32(0x01020304) leaves 01 02 03 04 in a big-endian stream and 04 03 02 01 in a little-endian one, on either host |
| Scenarios.LittleEndianBytes | bstream.h:966-970 | on a stream created with size 4, four byte writes FF 00 01 02 happen in place and read back as first byte 0xFF and little-endian word 0x020100FF, with the size still 4 |
| Scenarios.PatchedHeader | bstream.h:1081-1088 | placeholder, data and patch leave the 32-bit layout of 4 plus the length of `data` in the slot |
| Scenarios.OffsetPatch | bstream.h:1081-1088 | the patched slot reads back as 4 plus the length of `data` modulo 2^32, the position before the patch |
| Scenarios.GrowByte | bstream.h:937-970 | a one-byte write to an owned stream moves capacity and size by Reserve's growth policy, puts the byte at the position and, when the position is within the size and capacity, keeps every earlier byte across a reallocation |
| Scenarios.GrowAndReadBack | bstream.h:937-970 | four byte writes FF 00 01 02 to an empty owned stream grow the capacity to 6 and read back intact, as bytes and as the little-endian word 0x020100FF, with the size at 7 |
| Scenarios.GrowthOvershoots | bstream.h:944-957 | six one-byte writes to an empty owned stream end with size 7 above capacity 6 |

## Left out

- `CFileStream` (the file-backed stream): file I/O is not modelled.
- `readFloat`, `readDouble`, `writeFloat`, `writeDouble`: floating point is not modelled.
- `getSystemEndianess` reads the host order through a union. Here the host order is a constructor parameter.
- `OffsetPointer`, `OffsetWritePointer` and `readStruct`: raw pointer arithmetic and type punning are not modelled. Array indexing and the bounds preconditions take their place.
- `new`/`delete[]` of the old buffer: the model allocates a fresh array and drops the old one. No other reference to it is assumed.
- The `readString` of `bstream.cpp` (bstream.cpp:343-348): not part of this model. `std::string str('\0', len)` takes its arguments as (count, character), so it builds an empty string, and the `strncpy` of `len` bytes then writes past its end; the behaviour is undefined.
- Overflow of `std::size_t` in position and size arithmetic is not modelled (sizes are unbounded). The truncation in `alignTo` and in the offset patches is modelled.
- BStream.MemoryStream.AlignTo: requires `to` to be positive (so does `Align.AlignPadding`). With `to == 0` the source divides by zero, which is undefined.
- BStream.MemoryStream.ReadBytesTo: requires `out` to differ from the stream's own array. An overlapping `memcpy` is undefined in C++.
- BStream.MemoryStream.Store: requires the copy to land inside the array (`StoreFits`). Past the end of a borrowed buffer the source's behaviour is undefined.
- BStream.MemoryStream.Reserve: requires `CopyFits`. When the size exceeds the capacity, the source's reallocation copy reads past the old buffer, which is undefined.
