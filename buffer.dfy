/** The buffer bookkeeping of the memory-backed stream, as functions on
    values: what `Reserve`, `setSize` and a store into the buffer do to the
    bytes, the logical size and the capacity. The stream class in
    memory_stream.dfy performs these steps on its array and fields, and its
    methods' postconditions are stated with these functions. */
module Buffer {

  /** The bytes of the buffer, the logical size (`mSize`) and the allocated
      length (`mCapacity`). `bytes` is the whole array the stream writes
      into: for a borrowed buffer it may be longer than `capacity`. */
  datatype BufferState = BufferState(bytes: seq<bv8>, size: nat, capacity: nat)

  /** The array holds at least `capacity` bytes, and exactly that many when
      the stream owns it (it then allocated it itself). Nothing relates
      `size` to `capacity`: `Reserve` can leave `size` above `capacity`. */
  predicate Consistent(b: BufferState, owned: bool)
  {
    b.capacity <= |b.bytes| && (owned ==> |b.bytes| == b.capacity)
  }

  /** `new uint8_t[n]{}`: `n` zero bytes. */
  function Zeros(n: nat): (z: seq<bv8>)
    ensures |z| == n
    ensures forall i :: 0 <= i < n ==> z[i] == 0
  {
    seq(n, _ => 0)
  }

  // ---------------------------------------------------------------------
  // Reserve (bstream.h:937-958)
  // ---------------------------------------------------------------------

  /** The capacity `Reserve` moves to when it has to grow: twice the old one
      if that exceeds `needed`, otherwise the old one plus `needed`. */
  function GrownCapacity(capacity: nat, needed: nat): (c: nat)
    ensures c >= needed && c >= 2 * capacity
  {
    if capacity * 2 > needed then capacity * 2 else capacity + needed
  }

  /** Growing at least doubles the capacity and always makes room for
      `needed` bytes; doubling is chosen exactly when it is strictly enough. */
  lemma GrownCapacityBounds(capacity: nat, needed: nat)
    requires capacity < needed
    ensures GrownCapacity(capacity, needed) >= needed
    ensures GrownCapacity(capacity, needed) >= 2 * capacity
    ensures GrownCapacity(capacity, needed) == 2 * capacity <==> 2 * capacity > needed
  {
  }

  /** `Reserve(needed)` reallocates exactly when the capacity is short and
      the buffer is owned. */
  predicate Grows(b: BufferState, owned: bool, needed: nat)
  {
    b.capacity < needed && owned
  }

  /** `Reserve(needed)`'s boolean result. */
  predicate ReserveSucceeds(b: BufferState, owned: bool, needed: nat)
  {
    b.capacity >= needed || owned
  }

  /** When a reallocation happens, `memcpy(temp, mBuffer, mSize)` reads
      `size` bytes from the old buffer; that is only in bounds if the size
      does not exceed the capacity. */
  predicate CopyFits(b: BufferState, owned: bool, needed: nat)
  {
    Grows(b, owned, needed) ==> b.size <= b.capacity
  }

  /** The state after `Reserve(needed)`. When it grows, the new buffer holds
      the first `size` old bytes followed by zeros, and `mSize += needed`
      adds `needed` to the size (it does not set the size to `needed`). */
  function Reserved(b: BufferState, owned: bool, needed: nat): (r: BufferState)
    requires Consistent(b, owned) && CopyFits(b, owned, needed)
    ensures Consistent(r, owned) && r.capacity >= b.capacity && r.size >= b.size
    ensures owned ==> r.capacity >= needed
  {
    if !Grows(b, owned, needed) then b
    else
      var c := GrownCapacity(b.capacity, needed);
      BufferState(b.bytes[..b.size] + Zeros(c - b.size), b.size + needed, c)
  }

  /** What `Reserve(needed)` promises: nothing changes when the capacity
      already suffices or the buffer is borrowed; otherwise the capacity
      grows by the policy above, the first `size` bytes are kept, the rest of
      the new buffer is zero, and the size grows by `needed`. */
  lemma ReserveEffect(b: BufferState, owned: bool, needed: nat)
    requires Consistent(b, owned) && CopyFits(b, owned, needed)
    ensures var r := Reserved(b, owned, needed);
      && Consistent(r, owned)
      && (b.capacity >= needed ==> r == b)
      && (!owned ==> r == b)
      && (Grows(b, owned, needed) ==>
            && r.capacity == GrownCapacity(b.capacity, needed)
            && r.capacity >= needed
            && |r.bytes| == r.capacity
            && r.bytes[..b.size] == b.bytes[..b.size]
            && (forall i :: b.size <= i < r.capacity ==> r.bytes[i] == 0)
            && r.size == b.size + needed)
  {
    if Grows(b, owned, needed) {
      GrownCapacityBounds(b.capacity, needed);
    }
  }

  /** After a successful `Reserve(needed)` the array has room for `needed`
      bytes. */
  lemma ReserveMakesRoom(b: BufferState, owned: bool, needed: nat)
    requires Consistent(b, owned) && CopyFits(b, owned, needed)
    ensures ReserveSucceeds(b, owned, needed) <==> Reserved(b, owned, needed).capacity >= needed
  {
    if Grows(b, owned, needed) {
      GrownCapacityBounds(b.capacity, needed);
    }
  }

  // ---------------------------------------------------------------------
  // setSize (bstream.h:917-934)
  // ---------------------------------------------------------------------

  /** `setSize(n)`'s boolean result. */
  predicate SetSizeSucceeds(b: BufferState, owned: bool, n: nat)
  {
    b.capacity >= n || owned
  }

  /** The state after `setSize(n)`: within the capacity only the size
      changes; beyond it a borrowed buffer is left alone and an owned one is
      reallocated to exactly `n` bytes, the first `size` old ones kept and
      the rest zero. */
  function Resized(b: BufferState, owned: bool, n: nat): (r: BufferState)
    requires Consistent(b, owned) && CopyFits(b, owned, n)
    ensures Consistent(r, owned)
    ensures SetSizeSucceeds(b, owned, n) ==> r.size == n && r.capacity >= n
    ensures !SetSizeSucceeds(b, owned, n) ==> r == b
  {
    if b.capacity >= n then b.(size := n)
    else if !owned then b
    else BufferState(b.bytes[..b.size] + Zeros(n - b.size), n, n)
  }

  lemma SetSizeEffect(b: BufferState, owned: bool, n: nat)
    requires Consistent(b, owned) && CopyFits(b, owned, n)
    ensures var r := Resized(b, owned, n);
      && Consistent(r, owned)
      && (b.capacity >= n ==> r.bytes == b.bytes && r.capacity == b.capacity && r.size == n)
      && (b.capacity < n && !owned ==> r == b)
      && (b.capacity < n && owned ==>
            && r.capacity == n && r.size == n && |r.bytes| == n
            && r.bytes[..b.size] == b.bytes[..b.size]
            && (forall i :: b.size <= i < n ==> r.bytes[i] == 0))
      && (SetSizeSucceeds(b, owned, n) ==> r.size == n)
  {
  }

  // ---------------------------------------------------------------------
  // Storing bytes after a Reserve
  // ---------------------------------------------------------------------

  /** `bytes` with `data` copied over it at offset `at` (a `memcpy`). */
  function Spliced(bytes: seq<bv8>, at: nat, data: seq<bv8>): (r: seq<bv8>)
    requires at + |data| <= |bytes|
  {
    bytes[..at] + data + bytes[at + |data|..]
  }

  /** A splice puts `data` at `[at, at + |data|)` and leaves every other
      byte as it was. */
  lemma SplicedContents(bytes: seq<bv8>, at: nat, data: seq<bv8>)
    requires at + |data| <= |bytes|
    ensures var r := Spliced(bytes, at, data);
      && |r| == |bytes|
      && r[at..at + |data|] == data
      && (forall i :: 0 <= i < at ==> r[i] == bytes[i])
      && (forall i :: at + |data| <= i < |bytes| ==> r[i] == bytes[i])
  {
    var r := Spliced(bytes, at, data);
    assert r[at..at + |data|] == data;
  }

  /** Every store of the stream first calls `Reserve(needed)` and ignores its
      result, then copies `data` to offset `at`; this is what makes that safe. */
  predicate StoreFits(b: BufferState, owned: bool, needed: nat, at: nat, n: nat)
  {
    && Consistent(b, owned)
    && CopyFits(b, owned, needed)
    && at + n <= |Reserved(b, owned, needed).bytes|
  }

  /** The state after `Reserve(needed)` followed by a copy of `data` to `at`. */
  function Stored(b: BufferState, owned: bool, needed: nat, at: nat, data: seq<bv8>): BufferState
    requires StoreFits(b, owned, needed, at, |data|)
  {
    var r := Reserved(b, owned, needed);
    r.(bytes := Spliced(r.bytes, at, data))
  }

  /** An ordinary write reserves room for what it writes at the position. */
  function Written(b: BufferState, owned: bool, at: nat, data: seq<bv8>): BufferState
    requires StoreFits(b, owned, at + |data|, at, |data|)
  {
    Stored(b, owned, at + |data|, at, data)
  }

  /** What a store promises: the data lies at `at` afterwards, the size and
      capacity are those `Reserve` left, and the other bytes are those
      `Reserve` left. */
  lemma StoreEffect(b: BufferState, owned: bool, needed: nat, at: nat, data: seq<bv8>)
    requires StoreFits(b, owned, needed, at, |data|)
    ensures var r := Reserved(b, owned, needed);
      var s := Stored(b, owned, needed, at, data);
      && Consistent(s, owned)
      && s.size == r.size && s.capacity == r.capacity && |s.bytes| == |r.bytes|
      && s.bytes[at..at + |data|] == data
      && (forall i :: 0 <= i < |s.bytes| && !(at <= i < at + |data|) ==> s.bytes[i] == r.bytes[i])
  {
    ReserveEffect(b, owned, needed);
    SplicedContents(Reserved(b, owned, needed).bytes, at, data);
  }

  /** An owned buffer always has room for a write, so a write on an owned
      buffer only needs the reallocation copy to be in bounds. */
  lemma OwnedWriteFits(b: BufferState, at: nat, n: nat)
    requires Consistent(b, true) && CopyFits(b, true, at + n)
    ensures StoreFits(b, true, at + n, at, n)
  {
    ReserveMakesRoom(b, true, at + n);
  }

  /** Within the capacity a store neither reallocates nor touches the size
      or the capacity: it only replaces the stored bytes. */
  lemma StoreInPlace(b: BufferState, owned: bool, needed: nat, at: nat, data: seq<bv8>)
    requires Consistent(b, owned) && needed <= b.capacity && at + |data| <= b.capacity
    ensures StoreFits(b, owned, needed, at, |data|)
    ensures Stored(b, owned, needed, at, data) == b.(bytes := Spliced(b.bytes, at, data))
  {
  }

  /** A write to an owned buffer: the size and capacity afterwards, by
      whether `Reserve` reallocated. */
  lemma OwnedWriteEffect(b: BufferState, at: nat, data: seq<bv8>)
    requires Consistent(b, true) && CopyFits(b, true, at + |data|)
    ensures StoreFits(b, true, at + |data|, at, |data|)
    ensures var w := Written(b, true, at, data);
      if b.capacity < at + |data| then
        w.capacity == GrownCapacity(b.capacity, at + |data|) && w.size == b.size + at + |data|
      else
        w.capacity == b.capacity && w.size == b.size
  {
    OwnedWriteFits(b, at, |data|);
    StoreEffect(b, true, at + |data|, at, data);
  }

  /** Writing at a position no greater than the size keeps every byte before
      the position, and keeps all bytes of a borrowed buffer outside the
      written range. */
  lemma {:induction false} WriteKeepsEarlierBytes(b: BufferState, owned: bool, at: nat, data: seq<bv8>)
    requires StoreFits(b, owned, at + |data|, at, |data|)
    requires at <= b.size || !Grows(b, owned, at + |data|)
    ensures Written(b, owned, at, data).bytes[..at] == b.bytes[..at]
  {
    var r := Reserved(b, owned, at + |data|);
    StoreEffect(b, owned, at + |data|, at, data);
    ReserveEffect(b, owned, at + |data|);
    var s := Written(b, owned, at, data).bytes;
    forall i | 0 <= i < at
      ensures s[i] == b.bytes[i]
    {
      if Grows(b, owned, at + |data|) {
        assert r.bytes[..b.size][i] == b.bytes[..b.size][i];
      }
    }
  }

  /** When the position lies beyond the size, a write that reallocates drops
      the bytes between the size and the position: here a byte stored at
      offset 0 of an owned 2-byte buffer whose size was set to 0 is lost by
      the write of one byte at offset 2. */
  lemma WriteBeyondSizeLosesBytes()
    ensures var b := BufferState([7, 0], 0, 2);
      Written(b, true, 2, [9]).bytes[0] == 0 && b.bytes[0] == 7
  {
    var b := BufferState([7, 0], 0, 2);
    ReserveEffect(b, true, 3);
    StoreEffect(b, true, 3, 2, [9]);
  }
}
