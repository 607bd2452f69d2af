/** `CMemoryStream` of bstream.h: a byte buffer with a position, a logical
    size and a capacity, read and written in either byte order.

    The buffer is either borrowed from the caller (it is never reallocated
    and can neither grow nor change mode) or owned by the stream (it is
    reallocated by `Reserve` and `setSize`). The bookkeeping of `Reserve`,
    `setSize` and of every write is specified by the functions of module
    Buffer on the value `State()`; the methods here do the same work on the
    array and the fields.

    The source checks its read preconditions with `assert`; they are
    `requires` here, together with the bounds of the `memcpy` each operation
    performs (the source does not check those). */
module BStream {
  import opened Endian
  import opened Ints
  import opened Buffer
  import opened Align

  datatype OpenMode = In | Out

  class MemoryStream {
    var buffer: array<bv8>
    var position: nat
    var size: nat
    var capacity: nat
    var hasInternalBuffer: bool
    var openMode: OpenMode
    var order: Endianess
    /** The byte order of the host, given to the constructors. */
    var systemOrder: Endianess

    /** The array holds the capacity, exactly when the stream owns it. */
    ghost predicate Valid()
      reads this`buffer, this`capacity, this`hasInternalBuffer
    {
      capacity <= buffer.Length && (hasInternalBuffer ==> buffer.Length == capacity)
    }

    ghost function State(): BufferState
      reads this`buffer, this`size, this`capacity, buffer
    {
      BufferState(buffer[..], size, capacity)
    }

    /** A store of `n` bytes at the position, preceded by `Reserve(position + n)`,
        stays inside the array. */
    ghost predicate WriteFits(n: nat)
      reads this, buffer
    {
      StoreFits(State(), hasInternalBuffer, position + n, position, n)
    }

    // -------------------------------------------------------------------
    // Construction and queries
    // -------------------------------------------------------------------

    /** A stream over `size` bytes of a caller's buffer. */
    constructor Borrowed(ptr: array<bv8>, size: nat, ord: Endianess, mode: OpenMode, host: Endianess)
      requires size <= ptr.Length
      ensures Valid()
      ensures buffer == ptr && position == 0 && this.size == size && capacity == size
      ensures !hasInternalBuffer && openMode == mode && order == ord && systemOrder == host
    {
      buffer := ptr;
      position := 0;
      this.size := size;
      capacity := size;
      hasInternalBuffer := false;
      openMode := mode;
      order := ord;
      systemOrder := host;
    }

    /** A stream over a fresh zero-filled buffer of `size` bytes. */
    constructor Owned(size: nat, ord: Endianess, mode: OpenMode, host: Endianess)
      ensures Valid() && fresh(buffer)
      ensures buffer[..] == Zeros(size) && position == 0 && this.size == size && capacity == size
      ensures hasInternalBuffer && openMode == mode && order == ord && systemOrder == host
    {
      buffer := new bv8[size](_ => 0);
      position := 0;
      this.size := size;
      capacity := size;
      hasInternalBuffer := true;
      openMode := mode;
      order := ord;
      systemOrder := host;
    }

    method GetSize() returns (s: nat)
      ensures s == size
    {
      s := size;
    }

    method GetCapacity() returns (c: nat)
      ensures c == capacity
    {
      c := capacity;
    }

    method Tell() returns (p: nat)
      ensures p == position
    {
      p := position;
    }

    method GetBuffer() returns (b: array<bv8>)
      ensures b == buffer
    {
      b := buffer;
    }

    /** Only a stream that owns its buffer may switch between reading and
        writing. */
    method ChangeMode(mode: OpenMode) returns (ok: bool)
      modifies this`openMode
      ensures ok == hasInternalBuffer
      ensures openMode == (if ok then mode else old(openMode))
    {
      if !hasInternalBuffer {
        return false;
      }
      openMode := mode;
      ok := true;
    }

    /** Moves to `pos`, or `pos` bytes ahead when `fromCurrent`; fails when the
        target lies beyond the capacity. Moving beyond the size extends the
        size to the position. */
    method Seek(pos: nat, fromCurrent: bool) returns (ok: bool)
      modifies this`position, this`size
      ensures var target := if fromCurrent then old(position) + pos else pos;
        && (ok <==> target <= capacity)
        && (ok ==> position == target && size == (if target > old(size) then target else old(size)))
        && (!ok ==> position == old(position) && size == old(size))
    {
      // `&&` binds tighter than `||` in the source's condition.
      if (fromCurrent && position + pos > capacity) || pos > capacity {
        return false;
      }
      if fromCurrent {
        position := position + pos;
      } else {
        position := pos;
      }
      if position > size {
        size := position;
      }
      ok := true;
    }

    /** Moves `amount` bytes ahead only when that stays strictly below the
        size; otherwise stays put. */
    method Skip(amount: nat)
      modifies this`position
      ensures position == if old(position) + amount < size then old(position) + amount else old(position)
    {
      position := position + (if position + amount < size then amount else 0);
    }

    // -------------------------------------------------------------------
    // Loading values from the buffer
    // -------------------------------------------------------------------

    /** `memcpy` of two bytes into a host integer, then `swap16` when the
        stream order is not the host order: the value the bytes denote in
        stream order. */
    method Load16(at: nat) returns (r: bv16)
      requires at + 2 <= buffer.Length
      ensures r == Decode16(buffer[at..at + 2], order)
    {
      var raw := Decode16(buffer[at..at + 2], systemOrder);
      r := if order != systemOrder then Swap16(raw) else raw;
      LoadInStreamOrder16(buffer[at..at + 2], order, systemOrder);
    }

    method Load32(at: nat) returns (r: bv32)
      requires at + 4 <= buffer.Length
      ensures r == Decode32(buffer[at..at + 4], order)
    {
      var raw := Decode32(buffer[at..at + 4], systemOrder);
      r := if order != systemOrder then Swap32(raw) else raw;
      LoadInStreamOrder32(buffer[at..at + 4], order, systemOrder);
    }

    // -------------------------------------------------------------------
    // Reads: load at the position and advance by the width
    // -------------------------------------------------------------------

    method ReadInt8() returns (r: int8)
      requires openMode == In && position < size && position < buffer.Length
      modifies this`position
      ensures Bits8(r) == buffer[old(position)]
      ensures position == old(position) + 1
    {
      r := AsInt8(buffer[position]);
      SignedRoundTrip8(r, buffer[position]);
      position := position + 1;
    }

    /** Unlike the other reads, `readUInt8` does not check the position
        against the size. */
    method ReadUInt8() returns (r: bv8)
      requires openMode == In && position < buffer.Length
      modifies this`position
      ensures r == buffer[old(position)]
      ensures position == old(position) + 1
    {
      r := buffer[position];
      position := position + 1;
    }

    method ReadInt16() returns (r: int16)
      requires openMode == In && position < size && position + 2 <= buffer.Length
      modifies this`position
      ensures Bits16(r) == Decode16(buffer[old(position)..old(position) + 2], order)
      ensures position == old(position) + 2
    {
      var u := Load16(position);
      r := AsInt16(u);
      SignedRoundTrip16(r, u);
      position := position + 2;
    }

    method ReadUInt16() returns (r: bv16)
      requires openMode == In && position < size && position + 2 <= buffer.Length
      modifies this`position
      ensures r == Decode16(buffer[old(position)..old(position) + 2], order)
      ensures position == old(position) + 2
    {
      r := Load16(position);
      position := position + 2;
    }

    method ReadUInt32() returns (r: bv32)
      requires openMode == In && position < size && position + 4 <= buffer.Length
      modifies this`position
      ensures r == Decode32(buffer[old(position)..old(position) + 4], order)
      ensures position == old(position) + 4
    {
      r := Load32(position);
      position := position + 4;
    }

    method ReadInt32() returns (r: int32)
      requires openMode == In && position < size && position + 4 <= buffer.Length
      modifies this`position
      ensures Bits32(r) == Decode32(buffer[old(position)..old(position) + 4], order)
      ensures position == old(position) + 4
    {
      var u := Load32(position);
      r := AsInt32(u);
      SignedRoundTrip32(r, u);
      position := position + 4;
    }

    // -------------------------------------------------------------------
    // Peeks: load at a given offset, the position does not move
    // -------------------------------------------------------------------

    method PeekInt8(at: nat) returns (r: int8)
      requires openMode == In && at < size && at < buffer.Length
      ensures Bits8(r) == buffer[at]
    {
      r := AsInt8(buffer[at]);
      SignedRoundTrip8(r, buffer[at]);
    }

    method PeekUInt8(at: nat) returns (r: bv8)
      requires openMode == In && at < size && at < buffer.Length
      ensures r == buffer[at]
    {
      r := buffer[at];
    }

    method PeekInt16(at: nat) returns (r: int16)
      requires openMode == In && at < size && at + 2 <= buffer.Length
      ensures Bits16(r) == Decode16(buffer[at..at + 2], order)
    {
      var u := Load16(at);
      r := AsInt16(u);
      SignedRoundTrip16(r, u);
    }

    method PeekUInt16(at: nat) returns (r: bv16)
      requires openMode == In && at < size && at + 2 <= buffer.Length
      ensures r == Decode16(buffer[at..at + 2], order)
    {
      r := Load16(at);
    }

    method PeekUInt32(at: nat) returns (r: bv32)
      requires openMode == In && at < size && at + 4 <= buffer.Length
      ensures r == Decode32(buffer[at..at + 4], order)
    {
      r := Load32(at);
    }

    method PeekInt32(at: nat) returns (r: int32)
      requires openMode == In && at < size && at + 4 <= buffer.Length
      ensures Bits32(r) == Decode32(buffer[at..at + 4], order)
    {
      var u := Load32(at);
      r := AsInt32(u);
      SignedRoundTrip32(r, u);
    }

    // -------------------------------------------------------------------
    // Strings and byte blocks
    // -------------------------------------------------------------------

    /** The `len` bytes at the position; the position advances by `len`.
        Only the start is checked against the size. */
    method ReadString(len: nat) returns (str: seq<bv8>)
      requires openMode == In && position < size && position + len <= buffer.Length
      modifies this`position
      ensures str == buffer[old(position)..old(position) + len]
      ensures position == old(position) + len
    {
      str := buffer[position..position + len];
      position := position + len;
    }

    /** The `len` bytes at `at`. The source checks the position, not `at`,
        against the size. */
    method PeekString(at: nat, len: nat) returns (str: seq<bv8>)
      requires openMode == In && position < size && at + len <= buffer.Length
      ensures |str| == len
      ensures forall i :: 0 <= i < len ==> str[i] == buffer[at + i]
    {
      str := buffer[at..at + len];
    }

    /** Copies `len` bytes from the position into `out` and advances, but
        only when they all lie within the size; otherwise does nothing. */
    method ReadBytesTo(out: array<bv8>, len: nat)
      requires openMode == In && position < size
      requires out != buffer
      requires position + len <= size ==> len <= out.Length && position + len <= buffer.Length
      modifies out, this`position
      ensures old(position) + len <= size ==>
        && out[..len] == buffer[old(position)..old(position) + len]
        && out[len..] == old(out[len..])
        && position == old(position) + len
      ensures old(position) + len > size ==> out[..] == old(out[..]) && position == old(position)
    {
      if position + len <= size {
        forall i | 0 <= i < len {
          out[i] := buffer[position + i];
        }
        position := position + len;
      }
    }

    // -------------------------------------------------------------------
    // Growing the buffer
    // -------------------------------------------------------------------

    /** `new uint8_t[c]{}` followed by `memcpy(temp, mBuffer, mSize)`. */
    method CopyInto(c: nat) returns (temp: array<bv8>)
      requires size <= c && size <= buffer.Length
      ensures fresh(temp)
      ensures temp[..] == buffer[..size] + Zeros(c - size)
    {
      temp := new bv8[c](_ => 0);
      forall i | 0 <= i < size {
        temp[i] := buffer[i];
      }
      assert temp[..] == buffer[..size] + Zeros(c - size) by {
        forall i | 0 <= i < c
          ensures temp[i] == (buffer[..size] + Zeros(c - size))[i]
        {
        }
      }
    }

    /** Makes room for `needed` bytes. See `Buffer.Reserved`: the capacity
        doubles or grows by `needed`, and the size grows by `needed`. */
    method Reserve(needed: nat) returns (ok: bool)
      requires Valid() && CopyFits(State(), hasInternalBuffer, needed)
      modifies this`buffer, this`capacity, this`size
      ensures Valid()
      ensures ok == ReserveSucceeds(old(State()), hasInternalBuffer, needed)
      ensures State() == Reserved(old(State()), hasInternalBuffer, needed)
      ensures if Grows(old(State()), hasInternalBuffer, needed) then fresh(buffer) else buffer == old(buffer)
    {
      if capacity >= needed {
        return true;
      }
      if !hasInternalBuffer {
        return false;
      }
      if capacity * 2 > needed {
        capacity := capacity * 2;
      } else {
        capacity := capacity + needed;
      }
      buffer := CopyInto(capacity);
      size := size + needed;
      ok := true;
    }

    /** Sets the size; beyond the capacity an owned buffer is reallocated to
        exactly `n` bytes and a borrowed one makes it fail. */
    method SetSize(n: nat) returns (ok: bool)
      requires Valid() && CopyFits(State(), hasInternalBuffer, n)
      modifies this`buffer, this`capacity, this`size
      ensures Valid()
      ensures ok == SetSizeSucceeds(old(State()), hasInternalBuffer, n)
      ensures State() == Resized(old(State()), hasInternalBuffer, n)
      ensures if Grows(old(State()), hasInternalBuffer, n) then fresh(buffer) else buffer == old(buffer)
    {
      if capacity >= n {
        size := n;
        return true;
      }
      if !hasInternalBuffer {
        return false;
      }
      capacity := n;
      buffer := CopyInto(capacity);
      size := n;
      ok := true;
    }

    /** `Reserve(needed)`, its result ignored, then a copy of `data` to `at`:
        the shape of every write. */
    method Store(needed: nat, at: nat, data: seq<bv8>)
      requires Valid() && StoreFits(State(), hasInternalBuffer, needed, at, |data|)
      modifies this`buffer, this`capacity, this`size, buffer
      ensures Valid()
      ensures if Grows(old(State()), hasInternalBuffer, needed) then fresh(buffer) else buffer == old(buffer)
      ensures State() == Stored(old(State()), hasInternalBuffer, needed, at, data)
    {
      var reserved := Reserve(needed);
      ghost var before := buffer[..];
      forall i | 0 <= i < |data| {
        buffer[at + i] := data[i];
      }
      assert buffer[..] == Spliced(before, at, data) by {
        forall i | 0 <= i < buffer.Length
          ensures buffer[i] == Spliced(before, at, data)[i]
        {
        }
      }
    }

    /** `if (order != systemOrder) v = swap16(v)` followed by a store of the
        host-order bytes of `v`: the bytes stored are the stream-order layout
        of `v`, whatever the host order. */
    method StoreValue16(needed: nat, at: nat, v: bv16)
      requires Valid() && StoreFits(State(), hasInternalBuffer, needed, at, 2)
      modifies this`buffer, this`capacity, this`size, buffer
      ensures Valid()
      ensures if Grows(old(State()), hasInternalBuffer, needed) then fresh(buffer) else buffer == old(buffer)
      ensures State() == Stored(old(State()), hasInternalBuffer, needed, at, Encode16(v, order))
    {
      var x := if order != systemOrder then Swap16(v) else v;
      assert x == Convert16(v, order, systemOrder);
      Store(needed, at, Encode16(x, systemOrder));
    }

    method StoreValue32(needed: nat, at: nat, v: bv32)
      requires Valid() && StoreFits(State(), hasInternalBuffer, needed, at, 4)
      modifies this`buffer, this`capacity, this`size, buffer
      ensures Valid()
      ensures if Grows(old(State()), hasInternalBuffer, needed) then fresh(buffer) else buffer == old(buffer)
      ensures State() == Stored(old(State()), hasInternalBuffer, needed, at, Encode32(v, order))
    {
      var x := if order != systemOrder then Swap32(v) else v;
      assert x == Convert32(v, order, systemOrder);
      Store(needed, at, Encode32(x, systemOrder));
    }

    // -------------------------------------------------------------------
    // Writes: store at the position and advance by the width
    // -------------------------------------------------------------------

    method WriteInt8(v: int8)
      requires Valid() && WriteFits(1)
      modifies this`buffer, this`capacity, this`size, this`position, buffer
      ensures Valid()
      ensures if Grows(old(State()), hasInternalBuffer, old(position) + 1) then fresh(buffer) else buffer == old(buffer)
      ensures State() == Written(old(State()), hasInternalBuffer, old(position), [Bits8(v)])
      ensures position == old(position) + 1
    {
      WriteBytes([Bits8(v)]);
    }

    method WriteUInt8(v: bv8)
      requires Valid() && WriteFits(1)
      modifies this`buffer, this`capacity, this`size, this`position, buffer
      ensures Valid()
      ensures if Grows(old(State()), hasInternalBuffer, old(position) + 1) then fresh(buffer) else buffer == old(buffer)
      ensures State() == Written(old(State()), hasInternalBuffer, old(position), [v])
      ensures position == old(position) + 1
    {
      WriteBytes([v]);
    }

    /** The value is swapped into stream order and its host-order bytes are
        copied: the stored bytes are the value's stream-order layout. */
    method WriteUInt16(v: bv16)
      requires Valid() && WriteFits(2)
      modifies this`buffer, this`capacity, this`size, this`position, buffer
      ensures Valid()
      ensures if Grows(old(State()), hasInternalBuffer, old(position) + 2) then fresh(buffer) else buffer == old(buffer)
      ensures State() == Written(old(State()), hasInternalBuffer, old(position), Encode16(v, order))
      ensures position == old(position) + 2
    {
      var x := if order != systemOrder then Swap16(v) else v;
      assert x == Convert16(v, order, systemOrder);
      WriteBytes(Encode16(x, systemOrder));
    }

    method WriteInt16(v: int16)
      requires Valid() && WriteFits(2)
      modifies this`buffer, this`capacity, this`size, this`position, buffer
      ensures Valid()
      ensures if Grows(old(State()), hasInternalBuffer, old(position) + 2) then fresh(buffer) else buffer == old(buffer)
      ensures State() == Written(old(State()), hasInternalBuffer, old(position), Encode16(Bits16(v), order))
      ensures position == old(position) + 2
    {
      var u := Bits16(v);
      var x := if order != systemOrder then Swap16(u) else u;
      assert x == Convert16(u, order, systemOrder);
      WriteBytes(Encode16(x, systemOrder));
    }

    method WriteUInt32(v: bv32)
      requires Valid() && WriteFits(4)
      modifies this`buffer, this`capacity, this`size, this`position, buffer
      ensures Valid()
      ensures if Grows(old(State()), hasInternalBuffer, old(position) + 4) then fresh(buffer) else buffer == old(buffer)
      ensures State() == Written(old(State()), hasInternalBuffer, old(position), Encode32(v, order))
      ensures position == old(position) + 4
    {
      var x := if order != systemOrder then Swap32(v) else v;
      assert x == Convert32(v, order, systemOrder);
      WriteBytes(Encode32(x, systemOrder));
    }

    method WriteInt32(v: int32)
      requires Valid() && WriteFits(4)
      modifies this`buffer, this`capacity, this`size, this`position, buffer
      ensures Valid()
      ensures if Grows(old(State()), hasInternalBuffer, old(position) + 4) then fresh(buffer) else buffer == old(buffer)
      ensures State() == Written(old(State()), hasInternalBuffer, old(position), Encode32(Bits32(v), order))
      ensures position == old(position) + 4
    {
      var u := Bits32(v);
      var x := if order != systemOrder then Swap32(u) else u;
      assert x == Convert32(u, order, systemOrder);
      WriteBytes(Encode32(x, systemOrder));
    }

    /** Copies `bytes` to the position, with no byte-order conversion. */
    method WriteBytes(bytes: seq<bv8>)
      requires Valid() && WriteFits(|bytes|)
      modifies this`buffer, this`capacity, this`size, this`position, buffer
      ensures Valid()
      ensures if Grows(old(State()), hasInternalBuffer, old(position) + |bytes|) then fresh(buffer) else buffer == old(buffer)
      ensures State() == Written(old(State()), hasInternalBuffer, old(position), bytes)
      ensures position == old(position) + |bytes|
    {
      var at := position;
      position := at + |bytes|;
      Store(position, at, bytes);
    }

    /** The characters of `str` as bytes; the same effect as `writeBytes`. */
    method WriteString(str: seq<bv8>)
      requires Valid() && WriteFits(|str|)
      modifies this`buffer, this`capacity, this`size, this`position, buffer
      ensures Valid()
      ensures if Grows(old(State()), hasInternalBuffer, old(position) + |str|) then fresh(buffer) else buffer == old(buffer)
      ensures State() == Written(old(State()), hasInternalBuffer, old(position), str)
      ensures position == old(position) + |str|
    {
      WriteBytes(str);
    }

    /** Pads with zero bytes up to the next multiple of `to`, as computed by
        `AlignPadding`; for a power of two the position ends aligned. */
    method AlignTo(to: nat)
      requires 0 < to
      requires Valid() && WriteFits(AlignPadding(position, to))
      modifies this`buffer, this`capacity, this`size, this`position, buffer
      ensures Valid()
      ensures if Grows(old(State()), hasInternalBuffer, old(position) + AlignPadding(old(position), to)) then fresh(buffer) else buffer == old(buffer)
      ensures State() == Written(old(State()), hasInternalBuffer, old(position), Zeros(AlignPadding(old(position), to)))
      ensures position == old(position) + AlignPadding(old(position), to)
      ensures IsPowerOfTwo(to) ==> Aligned(position, to) && position < old(position) + to
    {
      var at := position;
      var pad := AlignPadding(at, to);
      WriteBytes(Zeros(pad));
      if IsPowerOfTwo(to) {
        PaddedIsAligned(at, to);
      }
    }

    /** Stores the low 16 bits of the position, in stream order, at `at`,
        after `Reserve(position + 2)`; the position does not move. */
    method WriteOffsetAt16(at: nat)
      requires Valid() && StoreFits(State(), hasInternalBuffer, position + 2, at, 2)
      modifies this`buffer, this`capacity, this`size, buffer
      ensures Valid()
      ensures if Grows(old(State()), hasInternalBuffer, old(position) + 2) then fresh(buffer) else buffer == old(buffer)
      ensures State() == Stored(old(State()), hasInternalBuffer, old(position) + 2, at, Encode16(Low16(old(position)), order))
    {
      StoreValue16(position + 2, at, Low16(position));
    }

    /** Stores the low 32 bits of the position, in stream order, at `at`. */
    method WriteOffsetAt32(at: nat)
      requires Valid() && StoreFits(State(), hasInternalBuffer, position + 4, at, 4)
      modifies this`buffer, this`capacity, this`size, buffer
      ensures Valid()
      ensures if Grows(old(State()), hasInternalBuffer, old(position) + 4) then fresh(buffer) else buffer == old(buffer)
      ensures State() == Stored(old(State()), hasInternalBuffer, old(position) + 4, at, Encode32(Low32(old(position)), order))
    {
      StoreValue32(position + 4, at, Low32(position));
    }
  }

  /** What a write stores is what a read at the same offset loads: the bytes
      a write of `v` leaves at `at` denote `v` in the same byte order. */
  lemma ReadBack16(b: BufferState, owned: bool, at: nat, v: bv16, order: Endianess)
    requires StoreFits(b, owned, at + 2, at, 2)
    ensures Decode16(Written(b, owned, at, Encode16(v, order)).bytes[at..at + 2], order) == v
  {
    StoreEffect(b, owned, at + 2, at, Encode16(v, order));
  }

  lemma ReadBack32(b: BufferState, owned: bool, at: nat, v: bv32, order: Endianess)
    requires StoreFits(b, owned, at + 4, at, 4)
    ensures Decode32(Written(b, owned, at, Encode32(v, order)).bytes[at..at + 4], order) == v
  {
    StoreEffect(b, owned, at + 4, at, Encode32(v, order));
  }
}
