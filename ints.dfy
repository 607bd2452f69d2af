/** A byte and the number it denotes. These two facts are the only places
    where a number is converted to a bit-vector and back; they are kept apart
    from everything else so that the solver meets them in a small context. */
module Bytes {

  /** The number a byte denotes. */
  function Value(b: bv8): (n: nat)
    ensures n < 0x100
  {
    b as int
  }

  lemma ByteOfInt(n: int)
    requires 0 <= n < 0x100
    ensures Value(n as bv8) == n
  {
  }

  lemma IntOfByte(b: bv8)
    ensures Value(b) as bv8 == b
  {
  }
}

/** The fixed-width signed integer types of the stream interface and their
    bit patterns. A signed value is stored, loaded and swapped as the
    unsigned value with the same bits (two's complement): the source copies
    an `int16_t` into memory byte for byte and passes it through `swap16`,
    which converts it to `uint16_t` and back.

    The numeric value of a bit pattern is computed byte by byte, and a number
    is split into bytes by repeated division by 256, which keeps every
    conversion between integers and bit-vectors at the width of a byte and
    every arithmetic step linear. */
module Ints {
  import opened Endian
  import opened Bytes

  newtype int8 = x: int | -0x80 <= x < 0x80
  newtype int16 = x: int | -0x8000 <= x < 0x8000
  newtype int32 = x: int | -0x8000_0000 <= x < 0x8000_0000

  /** The number whose bytes, most significant first, are the arguments. */
  function Number16(c1: int, c0: int): int
  {
    c1 * 0x100 + c0
  }

  function Number32(c3: int, c2: int, c1: int, c0: int): int
  {
    ((c3 * 0x100 + c2) * 0x100 + c1) * 0x100 + c0
  }

  lemma NumberBound16(c1: int, c0: int)
    requires 0 <= c1 < 0x100 && 0 <= c0 < 0x100
    ensures 0 <= Number16(c1, c0) < 0x1_0000
  {
  }

  lemma NumberBound32(c3: int, c2: int, c1: int, c0: int)
    requires 0 <= c3 < 0x100 && 0 <= c2 < 0x100 && 0 <= c1 < 0x100 && 0 <= c0 < 0x100
    ensures 0 <= Number32(c3, c2, c1, c0) < 0x1_0000_0000
  {
  }

  /** The unsigned number that the bits of `u` denote. */
  function Unsigned16(u: bv16): (n: nat)
    ensures n < 0x1_0000
  {
    var c1, c0 := Value(Byte16(u, 1)), Value(Byte16(u, 0));
    NumberBound16(c1, c0);
    Number16(c1, c0)
  }

  function Unsigned32(u: bv32): (n: nat)
    ensures n < 0x1_0000_0000
  {
    var c3, c2, c1, c0 := Value(Byte32(u, 3)), Value(Byte32(u, 2)), Value(Byte32(u, 1)), Value(Byte32(u, 0));
    NumberBound32(c3, c2, c1, c0);
    Number32(c3, c2, c1, c0)
  }

  /** The signed value whose two's-complement bits are `u`. */
  function AsInt8(u: bv8): int8
  {
    var n := Value(u);
    if n < 0x80 then n as int8 else (n - 0x100) as int8
  }

  function AsInt16(u: bv16): int16
  {
    var n := Unsigned16(u);
    if n < 0x8000 then n as int16 else (n - 0x1_0000) as int16
  }

  function AsInt32(u: bv32): int32
  {
    var n := Unsigned32(u);
    if n < 0x8000_0000 then n as int32 else (n - 0x1_0000_0000) as int32
  }

  /** The unsigned number with the same two's-complement bits as `v`. */
  function Wrapped(v: int, modulus: nat): int
  {
    if v < 0 then v + modulus else v
  }

  /** The bit pattern of a number below 2^16 or 2^32. */
  function Pattern16(n: int): bv16
    requires 0 <= n < 0x1_0000
  {
    Join16((n / 0x100) as bv8, (n % 0x100) as bv8)
  }

  function Pattern32(n: int): bv32
    requires 0 <= n < 0x1_0000_0000
  {
    var d1 := n / 0x100;
    var d2 := d1 / 0x100;
    Join32((d2 / 0x100) as bv8, (d2 % 0x100) as bv8, (d1 % 0x100) as bv8, (n % 0x100) as bv8)
  }

  /** The two's-complement bits of `v`. */
  function Bits8(v: int8): bv8
  {
    Wrapped(v as int, 0x100) as bv8
  }

  function Bits16(v: int16): bv16
  {
    Pattern16(Wrapped(v as int, 0x1_0000))
  }

  function Bits32(v: int32): bv32
  {
    Pattern32(Wrapped(v as int, 0x1_0000_0000))
  }

  // ---------------------------------------------------------------------
  // Arithmetic on the low byte of a number
  // ---------------------------------------------------------------------

  lemma SplitLow(x: int)
    requires 0 <= x
    ensures 0 <= x / 0x100 && 0 <= x % 0x100 < 0x100 && x / 0x100 * 0x100 + x % 0x100 == x
  {
  }

  lemma JoinLow(hi: int, lo: int)
    requires 0 <= hi && 0 <= lo < 0x100
    ensures (hi * 0x100 + lo) / 0x100 == hi && (hi * 0x100 + lo) % 0x100 == lo
  {
  }

  // ---------------------------------------------------------------------
  // Numbers and patterns
  // ---------------------------------------------------------------------

  /** A number below 2^16 or 2^32 is the number of its bytes. */
  lemma NumberOfDigits16(n: int)
    requires 0 <= n < 0x1_0000
    ensures 0 <= n / 0x100 < 0x100 && 0 <= n % 0x100 < 0x100
    ensures Number16(n / 0x100, n % 0x100) == n
  {
    SplitLow(n);
  }

  lemma NumberOfDigits32(n: int)
    requires 0 <= n < 0x1_0000_0000
    ensures var d1 := n / 0x100;
      var d2 := d1 / 0x100;
      && 0 <= d2 / 0x100 < 0x100 && 0 <= d2 % 0x100 < 0x100 && 0 <= d1 % 0x100 < 0x100 && 0 <= n % 0x100 < 0x100
      && Number32(d2 / 0x100, d2 % 0x100, d1 % 0x100, n % 0x100) == n
  {
    var d1 := n / 0x100;
    var d2 := d1 / 0x100;
    SplitLow(n);
    SplitLow(d1);
    SplitLow(d2);
  }

  /** Splitting the number of some bytes gives the bytes back. */
  lemma DigitsOfNumber16(c1: int, c0: int)
    requires 0 <= c1 < 0x100 && 0 <= c0 < 0x100
    ensures 0 <= Number16(c1, c0) < 0x1_0000
    ensures Number16(c1, c0) / 0x100 == c1 && Number16(c1, c0) % 0x100 == c0
  {
    JoinLow(c1, c0);
  }

  lemma DigitsOfNumber32(c3: int, c2: int, c1: int, c0: int)
    requires 0 <= c3 < 0x100 && 0 <= c2 < 0x100 && 0 <= c1 < 0x100 && 0 <= c0 < 0x100
    ensures 0 <= Number32(c3, c2, c1, c0) < 0x1_0000_0000
    ensures var n := Number32(c3, c2, c1, c0);
      var d1 := n / 0x100;
      var d2 := d1 / 0x100;
      d2 / 0x100 == c3 && d2 % 0x100 == c2 && d1 % 0x100 == c1 && n % 0x100 == c0
  {
    var h2 := c3 * 0x100 + c2;
    var h1 := h2 * 0x100 + c1;
    JoinLow(h1, c0);
    JoinLow(h2, c1);
    JoinLow(c3, c2);
  }

  /** A pattern denotes the number it was made from. */
  lemma NumberOfPattern16(n: int)
    requires 0 <= n < 0x1_0000
    ensures Unsigned16(Pattern16(n)) == n
  {
    NumberOfDigits16(n);
    var c1, c0 := n / 0x100, n % 0x100;
    ByteOfInt(c1);
    ByteOfInt(c0);
    BytesOfJoin16(c1 as bv8, c0 as bv8);
  }

  lemma NumberOfPattern32(n: int)
    requires 0 <= n < 0x1_0000_0000
    ensures Unsigned32(Pattern32(n)) == n
  {
    NumberOfDigits32(n);
    var d1 := n / 0x100;
    var d2 := d1 / 0x100;
    var c3, c2, c1, c0 := d2 / 0x100, d2 % 0x100, d1 % 0x100, n % 0x100;
    ByteOfInt(c3);
    ByteOfInt(c2);
    ByteOfInt(c1);
    ByteOfInt(c0);
    BytesOfJoin32(c3 as bv8, c2 as bv8, c1 as bv8, c0 as bv8);
  }

  /** The pattern of the number of some bytes is those bytes joined. */
  lemma PatternOfNumber16(c1: int, c0: int)
    requires 0 <= c1 < 0x100 && 0 <= c0 < 0x100
    ensures 0 <= Number16(c1, c0) < 0x1_0000
    ensures Pattern16(Number16(c1, c0)) == Join16(c1 as bv8, c0 as bv8)
  {
    DigitsOfNumber16(c1, c0);
  }

  lemma PatternOfNumber32(c3: int, c2: int, c1: int, c0: int)
    requires 0 <= c3 < 0x100 && 0 <= c2 < 0x100 && 0 <= c1 < 0x100 && 0 <= c0 < 0x100
    ensures 0 <= Number32(c3, c2, c1, c0) < 0x1_0000_0000
    ensures Pattern32(Number32(c3, c2, c1, c0)) == Join32(c3 as bv8, c2 as bv8, c1 as bv8, c0 as bv8)
  {
    DigitsOfNumber32(c3, c2, c1, c0);
  }

  lemma PatternOfUnsigned16(u: bv16)
    ensures Pattern16(Unsigned16(u)) == u
  {
    var b1, b0 := Byte16(u, 1), Byte16(u, 0);
    PatternOfNumber16(Value(b1), Value(b0));
    IntOfByte(b1);
    IntOfByte(b0);
    JoinBytes16(u);
  }

  lemma PatternOfUnsigned32(u: bv32)
    ensures Pattern32(Unsigned32(u)) == u
  {
    var b3, b2, b1, b0 := Byte32(u, 3), Byte32(u, 2), Byte32(u, 1), Byte32(u, 0);
    PatternOfNumber32(Value(b3), Value(b2), Value(b1), Value(b0));
    IntOfByte(b3);
    IntOfByte(b2);
    IntOfByte(b1);
    IntOfByte(b0);
    JoinBytes32(u);
  }

  // ---------------------------------------------------------------------
  // Signed values and their bits
  // ---------------------------------------------------------------------

  /** Reinterpreting bits as a signed value and back is the identity, in
      both directions. */
  lemma SignedRoundTrip8(v: int8, u: bv8)
    ensures AsInt8(Bits8(v)) == v
    ensures Bits8(AsInt8(u)) == u
  {
    var n := Wrapped(v as int, 0x100);
    assert Value(Bits8(v)) == n by { ByteOfInt(n); }
    assert Wrapped(AsInt8(u) as int, 0x100) == Value(u);
    IntOfByte(u);
  }

  lemma SignedRoundTrip16(v: int16, u: bv16)
    ensures AsInt16(Bits16(v)) == v
    ensures Bits16(AsInt16(u)) == u
  {
    NumberOfPattern16(Wrapped(v as int, 0x1_0000));
    assert Wrapped(AsInt16(u) as int, 0x1_0000) == Unsigned16(u);
    PatternOfUnsigned16(u);
  }

  lemma SignedRoundTrip32(v: int32, u: bv32)
    ensures AsInt32(Bits32(v)) == v
    ensures Bits32(AsInt32(u)) == u
  {
    NumberOfPattern32(Wrapped(v as int, 0x1_0000_0000));
    assert Wrapped(AsInt32(u) as int, 0x1_0000_0000) == Unsigned32(u);
    PatternOfUnsigned32(u);
  }

  /** Distinct signed values have distinct bits. */
  lemma BitsInjective16(a: int16, b: int16)
    ensures Bits16(a) == Bits16(b) <==> a == b
  {
    SignedRoundTrip16(a, Bits16(a));
    SignedRoundTrip16(b, Bits16(b));
  }

  lemma BitsInjective32(a: int32, b: int32)
    ensures Bits32(a) == Bits32(b) <==> a == b
  {
    SignedRoundTrip32(a, Bits32(a));
    SignedRoundTrip32(b, Bits32(b));
  }

  // ---------------------------------------------------------------------
  // Truncating a position to 16 or 32 bits
  // ---------------------------------------------------------------------

  /** The low 16 bits of `n` (`n & 0xFFFF`): the pattern that denotes `n`
      modulo 2^16. */
  function Low16(n: nat): (r: bv16)
    ensures Unsigned16(r) == n % 0x1_0000
  {
    NumberOfPattern16(n % 0x1_0000);
    Pattern16(n % 0x1_0000)
  }

  /** The low 32 bits of `n` (conversion of `std::size_t` to `uint32_t`):
      the pattern that denotes `n` modulo 2^32. */
  function Low32(n: nat): (r: bv32)
    ensures Unsigned32(r) == n % 0x1_0000_0000
  {
    NumberOfPattern32(n % 0x1_0000_0000);
    Pattern32(n % 0x1_0000_0000)
  }
}
