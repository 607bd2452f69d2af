/** The padding `alignTo` writes: `(-mPosition % to) % to` computed on
    `std::size_t`, where unary minus wraps modulo 2^64. For a power-of-two
    boundary this is the distance to the next multiple of the boundary; for
    other boundaries the wrap-around makes it something else. */
module Align {

  /** The number of values of `std::size_t` (a 64-bit platform). */
  const SizeRange: nat := 0x1_0000_0000_0000_0000

  /** `(-p % to) % to` with `-p` taken modulo `SizeRange`; the padding is
      always less than the boundary. A zero `to` is a division by zero in the
      source, so it is excluded. */
  function AlignPadding(p: nat, to: nat): (pad: nat)
    requires 0 < to
    ensures pad < to
  {
    ((SizeRange - p % SizeRange) % SizeRange % to) % to
  }

  function Pow2(k: nat): (r: nat)
    ensures r > 0
  {
    if k == 0 then 1 else 2 * Pow2(k - 1)
  }

  /** A power of two that `std::size_t` can hold. */
  ghost predicate IsPowerOfTwo(n: nat)
  {
    exists k: nat :: k < 64 && Pow2(k) == n
  }

  lemma {:induction false} Pow2Add(a: nat, b: nat)
    ensures Pow2(a + b) == Pow2(a) * Pow2(b)
  {
    if a > 0 {
      Pow2Add(a - 1, b);
      assert Pow2(a + b) == 2 * Pow2(a - 1 + b);
    }
  }

  lemma Pow2Range()
    ensures Pow2(64) == SizeRange
  {
    assert Pow2(2) == 4;
    Pow2Add(2, 2);
    assert Pow2(4) == 0x10;
    Pow2Add(4, 4);
    assert Pow2(8) == 0x100;
    Pow2Add(8, 8);
    assert Pow2(16) == 0x1_0000;
    Pow2Add(16, 16);
    assert Pow2(32) == 0x1_0000_0000;
    Pow2Add(32, 32);
  }

  // Facts of division with remainder.

  lemma DivMod(x: int, m: int)
    requires 0 < m
    ensures x == (x / m) * m + x % m && 0 <= x % m < m
  {
  }

  lemma MulAtLeast(d: int, m: int)
    requires d >= 1 && m > 0
    ensures d * m >= m
  {
    assert d * m == (d - 1) * m + m;
    assert (d - 1) * m >= 0;
  }

  /** Quotient and remainder are unique. */
  lemma ModUnique(y: int, m: int, q: int, r: int)
    requires 0 <= r < m && y == q * m + r
    ensures y % m == r && y / m == q
  {
    var q', r' := y / m, y % m;
    DivMod(y, m);
    assert (q' - q) * m == r - r';
    if q' > q {
      MulAtLeast(q' - q, m);
    } else if q' < q {
      MulAtLeast(q - q', m);
    }
  }

  /** Adding a multiple of `m` does not change the remainder modulo `m`. */
  lemma ModAddMultiple(x: int, k: int, m: int)
    requires 0 < m
    ensures (x + k * m) % m == x % m
  {
    DivMod(x, m);
    assert x + k * m == (x / m + k) * m + x % m;
    ModUnique(x + k * m, m, x / m + k, x % m);
  }

  /** 2^64 is a multiple of every power of two that `std::size_t` holds. */
  lemma WordQuotient(to: nat) returns (q: nat)
    requires IsPowerOfTwo(to)
    ensures 0 < to && SizeRange == q * to
  {
    var k: nat :| k < 64 && Pow2(k) == to;
    var j: nat := 64 - k;
    q := Pow2(j);
    Pow2Add(j, k);
    assert j + k == 64;
    Pow2Range();
  }

  /** Reducing modulo 2^64 first does not change the remainder modulo a
      divisor of 2^64. */
  lemma ReduceWord(p: nat, to: nat, q: nat)
    requires 0 < to && SizeRange == q * to
    ensures (p % SizeRange) % to == p % to
  {
    var w := p % SizeRange;
    DivMod(p, SizeRange);
    assert p == w + ((p / SizeRange) * q) * to;
    ModAddMultiple(w, (p / SizeRange) * q, to);
  }

  /** 2^64 - w and to - (w % to) leave the same remainder modulo `to`. */
  lemma NegateWord(w: nat, to: nat, q: nat)
    requires w < SizeRange && 0 < to && SizeRange == q * to
    ensures ((SizeRange - w) % SizeRange) % to == (to - w % to) % to
  {
    DivMod(w, to);
    var r := w % to;
    if w == 0 {
      assert (SizeRange - w) % SizeRange == 0;
      assert (to - r) % to == 0;
    } else {
      var neg: int := -(w as int);
      assert (SizeRange - w) % SizeRange == SizeRange - w;
      assert SizeRange - w == neg + q * to;
      ModAddMultiple(neg, q, to);
      assert to - r == neg + (w / to + 1) * to;
      ModAddMultiple(neg, w / to + 1, to);
    }
  }

  /** The wrapped negation agrees with plain negation modulo a power of two. */
  lemma NegatedModulo(p: nat, to: nat)
    requires IsPowerOfTwo(to)
    ensures 0 < to
    ensures ((SizeRange - p % SizeRange) % SizeRange) % to == (to - p % to) % to
  {
    var q := WordQuotient(to);
    ReduceWord(p, to, q);
    NegateWord(p % SizeRange, to, q);
  }

  /** `m` is a multiple of `to`. */
  predicate Aligned(m: int, to: nat)
    requires 0 < to
  {
    m % to == 0
  }

  /** For a power-of-two boundary the padding is zero on a multiple and
      otherwise the boundary minus the remainder. */
  lemma PaddingValue(p: nat, to: nat)
    requires IsPowerOfTwo(to)
    ensures 0 < to
    ensures AlignPadding(p, to) == if p % to == 0 then 0 else to - p % to
  {
    NegatedModulo(p, to);
    var x := (SizeRange - p % SizeRange) % SizeRange % to;
    DivMod(x, to);
    ModUnique(x, to, 0, x);
    var r := p % to;
    DivMod(p, to);
    if r == 0 {
      ModUnique(to - r, to, 1, 0);
    } else {
      ModUnique(to - r, to, 0, to - r);
    }
  }

  /** For a power-of-two boundary the padding is the distance from `p` to the
      least multiple of `to` at or above `p`; it is zero exactly when `p` is
      already aligned. */
  lemma AlignPaddingPowerOfTwo(p: nat, to: nat)
    requires IsPowerOfTwo(to)
    ensures 0 < to
    ensures AlignPadding(p, to) < to
    ensures Aligned(p + AlignPadding(p, to), to)
    ensures forall m :: p <= m < p + AlignPadding(p, to) ==> !Aligned(m, to)
    ensures AlignPadding(p, to) == 0 <==> Aligned(p, to)
  {
    PaddingValue(p, to);
    var pad := AlignPadding(p, to);
    var r := p % to;
    DivMod(p, to);
    if r != 0 {
      assert p + pad == (p / to + 1) * to + 0;
      ModUnique(p + pad, to, p / to + 1, 0);
      forall m | p <= m < p + pad
        ensures !Aligned(m, to)
      {
        assert m == (p / to) * to + (r + (m - p));
        ModUnique(m, to, p / to, r + (m - p));
      }
    }
  }

  /** The position after the padding is aligned and less than a boundary
      further on. */
  lemma PaddedIsAligned(p: nat, to: nat)
    requires IsPowerOfTwo(to)
    ensures 0 < to && Aligned(p + AlignPadding(p, to), to) && p + AlignPadding(p, to) < p + to
  {
    AlignPaddingPowerOfTwo(p, to);
  }

  /** For a boundary that is not a power of two the wrap-around spoils the
      result: at position 1 with boundary 3 the padding is 0 (2^64 - 1 is a
      multiple of 3), so `alignTo(3)` leaves an unaligned position. */
  lemma AlignPaddingNotPowerOfTwo()
    ensures AlignPadding(1, 3) == 0 && 1 % 3 != 0
  {
  }
}
