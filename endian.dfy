/** Byte-order conversion: the two byte orders a stream can be encoded in,
    the byte layout of a 16- and 32-bit value in each order, and the two
    byte-swapping functions the streams apply when the stream order differs
    from the host order.

    The host order itself is never computed here: the source detects it by
    type-punning a 32-bit integer through a union, which the model replaces
    by a `host: Endianess` parameter given to each stream. Copying raw bytes
    into an integer variable (`memcpy(&r, p, 2)`) on a host of order `h` is
    modelled as `Decode16(bytes, h)`, and copying an integer variable out to
    memory as `Encode16(v, h)`. */
module Endian {

  datatype Endianess = Big | Little

  // ---------------------------------------------------------------------
  // Bytes of a value
  // ---------------------------------------------------------------------

  /** Byte `k` of a 16- or 32-bit value, counting from the least
      significant byte. */
  function Byte16(v: bv16, k: nat): bv8
    requires k < 2
  {
    if k == 0 then (v & 0xFF) as bv8 else (v >> 8) as bv8
  }

  function Byte32(v: bv32, k: nat): bv8
    requires k < 4
  {
    if k == 0 then (v & 0xFF) as bv8
    else if k == 1 then ((v >> 8) & 0xFF) as bv8
    else if k == 2 then ((v >> 16) & 0xFF) as bv8
    else (v >> 24) as bv8
  }

  /** The value whose bytes, most significant first, are the arguments. */
  function Join16(b1: bv8, b0: bv8): bv16
  {
    (b1 as bv16 << 8) | b0 as bv16
  }

  function Join32(b3: bv8, b2: bv8, b1: bv8, b0: bv8): bv32
  {
    (b3 as bv32 << 24) | (b2 as bv32 << 16) | (b1 as bv32 << 8) | b0 as bv32
  }

  // The facts about single bytes are kept in lemmas of their own: the
  // solver handles them quickly as long as no sequence is in sight.

  lemma JoinBytes16(v: bv16)
    ensures Join16(Byte16(v, 1), Byte16(v, 0)) == v
  {
  }

  lemma BytesOfJoin16(b1: bv8, b0: bv8)
    ensures Byte16(Join16(b1, b0), 1) == b1 && Byte16(Join16(b1, b0), 0) == b0
  {
  }

  lemma JoinBytes32(v: bv32)
    ensures Join32(Byte32(v, 3), Byte32(v, 2), Byte32(v, 1), Byte32(v, 0)) == v
  {
  }

  lemma BytesOfJoin32(b3: bv8, b2: bv8, b1: bv8, b0: bv8)
    ensures Byte32(Join32(b3, b2, b1, b0), 3) == b3 && Byte32(Join32(b3, b2, b1, b0), 2) == b2
    ensures Byte32(Join32(b3, b2, b1, b0), 1) == b1 && Byte32(Join32(b3, b2, b1, b0), 0) == b0
  {
  }

  // ---------------------------------------------------------------------
  // Byte layouts
  // ---------------------------------------------------------------------

  /** The two bytes of `v` as they lie in memory in byte order `order`; the
      bytes determine the value again in that order. */
  function Encode16(v: bv16, order: Endianess): (bs: seq<bv8>)
    ensures |bs| == 2 && Decode16(bs, order) == v
  {
    JoinBytes16(v);
    if order == Big then [Byte16(v, 1), Byte16(v, 0)] else [Byte16(v, 0), Byte16(v, 1)]
  }

  /** The value whose layout in byte order `order` is `bs`: in big-endian
      order the first byte is the most significant one. */
  function Decode16(bs: seq<bv8>, order: Endianess): (v: bv16)
    requires |bs| == 2
    ensures order == Big ==> Byte16(v, 1) == bs[0] && Byte16(v, 0) == bs[1]
    ensures order == Little ==> Byte16(v, 0) == bs[0] && Byte16(v, 1) == bs[1]
  {
    if order == Big then BytesOfJoin16(bs[0], bs[1]); Join16(bs[0], bs[1])
    else BytesOfJoin16(bs[1], bs[0]); Join16(bs[1], bs[0])
  }

  /** The four bytes of `v` as they lie in memory in byte order `order`;
      the bytes determine the value again in that order. */
  function Encode32(v: bv32, order: Endianess): (bs: seq<bv8>)
    ensures |bs| == 4 && Decode32(bs, order) == v
  {
    JoinBytes32(v);
    if order == Big then [Byte32(v, 3), Byte32(v, 2), Byte32(v, 1), Byte32(v, 0)]
    else [Byte32(v, 0), Byte32(v, 1), Byte32(v, 2), Byte32(v, 3)]
  }

  /** The value whose layout in byte order `order` is `bs`. */
  function Decode32(bs: seq<bv8>, order: Endianess): (v: bv32)
    requires |bs| == 4
    ensures forall k :: 0 <= k < 4 ==> Byte32(v, k) == bs[if order == Big then 3 - k else k]
  {
    if order == Big then BytesOfJoin32(bs[0], bs[1], bs[2], bs[3]); Join32(bs[0], bs[1], bs[2], bs[3])
    else BytesOfJoin32(bs[3], bs[2], bs[1], bs[0]); Join32(bs[3], bs[2], bs[1], bs[0])
  }

  /** A layout is the layout of the value it denotes. */
  lemma EncodeDecode16(bs: seq<bv8>, order: Endianess)
    requires |bs| == 2
    ensures Encode16(Decode16(bs, order), order) == bs
  {
    if order == Big { BytesOfJoin16(bs[0], bs[1]); } else { BytesOfJoin16(bs[1], bs[0]); }
  }

  lemma EncodeDecode32(bs: seq<bv8>, order: Endianess)
    requires |bs| == 4
    ensures Encode32(Decode32(bs, order), order) == bs
  {
    if order == Big {
      BytesOfJoin32(bs[0], bs[1], bs[2], bs[3]);
    } else {
      BytesOfJoin32(bs[3], bs[2], bs[1], bs[0]);
    }
  }

  /** 0x01020304 is laid out 01 02 03 04 in big-endian order and
      04 03 02 01 in little-endian order. */
  lemma Layout32Example()
    ensures Encode32(0x01020304, Big) == [0x01, 0x02, 0x03, 0x04]
    ensures Encode32(0x01020304, Little) == [0x04, 0x03, 0x02, 0x01]
  {
  }

  // ---------------------------------------------------------------------
  // swap16 / swap32
  // ---------------------------------------------------------------------

  /** `swap16`: the two bytes of the result are those of `r`, exchanged. */
  function Swap16(r: bv16): (s: bv16)
    ensures Byte16(s, 1) == Byte16(r, 0) && Byte16(s, 0) == Byte16(r, 1)
  {
    ((r << 8) & 0xFF00) | ((r >> 8) & 0x00FF)
  }

  /** `swap32`: byte `k` of the result is byte `3 - k` of `r`. */
  function Swap32(r: bv32): (s: bv32)
    ensures Byte32(s, 3) == Byte32(r, 0) && Byte32(s, 2) == Byte32(r, 1)
    ensures Byte32(s, 1) == Byte32(r, 2) && Byte32(s, 0) == Byte32(r, 3)
  {
    ((r >> 24) & 0xFF) | ((r << 8) & 0xFF0000) | ((r >> 8) & 0xFF00) | ((r << 24) & 0xFF000000)
  }

  /** `swap16` reverses the bytes of its argument: the result is laid out in
      one byte order exactly as the argument is laid out in the other. */
  lemma Swap16Reverses(r: bv16)
    ensures Encode16(Swap16(r), Big) == Encode16(r, Little)
    ensures Encode16(Swap16(r), Little) == Encode16(r, Big)
  {
  }

  /** `swap32` reverses the bytes of its argument. */
  lemma Swap32Reverses(r: bv32)
    ensures Encode32(Swap32(r), Big) == Encode32(r, Little)
    ensures Encode32(Swap32(r), Little) == Encode32(r, Big)
  {
  }

  lemma Swap16Involutive(v: bv16)
    ensures Swap16(Swap16(v)) == v
  {
    calc {
      Swap16(Swap16(v));
      Decode16(Encode16(Swap16(Swap16(v)), Big), Big);
      { Swap16Reverses(Swap16(v)); }
      Decode16(Encode16(Swap16(v), Little), Big);
      { Swap16Reverses(v); }
      Decode16(Encode16(v, Big), Big);
      v;
    }
  }

  lemma Swap32Involutive(v: bv32)
    ensures Swap32(Swap32(v)) == v
  {
    calc {
      Swap32(Swap32(v));
      Decode32(Encode32(Swap32(Swap32(v)), Big), Big);
      { Swap32Reverses(Swap32(v)); }
      Decode32(Encode32(Swap32(v), Little), Big);
      { Swap32Reverses(v); }
      Decode32(Encode32(v, Big), Big);
      v;
    }
  }

  lemma Swap32Example()
    ensures Swap32(0x01020304) == 0x04030201
  {
  }

  // ---------------------------------------------------------------------
  // The conversion every multi-byte read and write applies
  // ---------------------------------------------------------------------

  /** `if (order != systemOrder) v = swap16(v)`: a value held in host order
      stored to memory after this conversion has its stream-order layout. */
  function Convert16(v: bv16, order: Endianess, host: Endianess): (r: bv16)
    ensures Encode16(r, host) == Encode16(v, order)
  {
    Swap16Reverses(v);
    if order != host then Swap16(v) else v
  }

  function Convert32(v: bv32, order: Endianess, host: Endianess): (r: bv32)
    ensures Encode32(r, host) == Encode32(v, order)
  {
    Swap32Reverses(v);
    if order != host then Swap32(v) else v
  }

  /** Loading raw bytes into a host-order integer and then converting yields
      the value the bytes denote in stream order, whatever the host order. */
  lemma {:induction false} LoadInStreamOrder16(bs: seq<bv8>, order: Endianess, host: Endianess)
    requires |bs| == 2
    ensures Convert16(Decode16(bs, host), order, host) == Decode16(bs, order)
  {
    var v := Decode16(bs, host);
    var r := Convert16(v, order, host);
    EncodeDecode16(bs, host);
    if order != host {
      Swap16Involutive(v);
      assert Convert16(r, order, host) == v;
    }
    assert Encode16(r, order) == bs;
  }

  lemma {:induction false} LoadInStreamOrder32(bs: seq<bv8>, order: Endianess, host: Endianess)
    requires |bs| == 4
    ensures Convert32(Decode32(bs, host), order, host) == Decode32(bs, order)
  {
    var v := Decode32(bs, host);
    var r := Convert32(v, order, host);
    EncodeDecode32(bs, host);
    if order != host {
      Swap32Involutive(v);
      assert Convert32(r, order, host) == v;
    }
    assert Encode32(r, order) == bs;
  }
}
