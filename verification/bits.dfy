/** Machine words as mathematical integers.

    The kernel manipulates 64-bit words with shifts, masks and bitwise OR.
    This module gives each of those operations an arithmetic meaning, defined
    one bit at a time so that proofs about them only ever divide by two:
    `x >> s` is `Shr(x, s)`, `x << s` is `Shl(x, s)` (truncated to 64 bits by
    `Shl64`), `x & (2^w - 1)` is `Low(x, w)` and `x | y` is `Or(x, y)`. */
module Bits {

  const WORD_MODULUS: int := 0x1_0000_0000_0000_0000

  /** Rust's `u64` / `usize` on RV64. */
  type uint64 = x: int | 0 <= x < 0x1_0000_0000_0000_0000

  /** Rust's `u32`. */
  type uint32 = x: int | 0 <= x < 0x1_0000_0000

  /** Rust's `u16`. */
  type uint16 = x: int | 0 <= x < 0x1_0000

  /** Rust's `u8`. */
  type uint8 = x: int | 0 <= x < 0x100

  function Pow2(n: nat): (r: nat)
    ensures r >= 1
  {
    if n == 0 then 1 else 2 * Pow2(n - 1)
  }

  /** `x >> s` */
  function Shr(x: nat, s: nat): nat
  {
    if s == 0 then x else Shr(x / 2, s - 1)
  }

  /** `x << s` with unbounded width */
  function Shl(x: nat, s: nat): nat
  {
    if s == 0 then x else 2 * Shl(x, s - 1)
  }

  /** `x << s` on a 64-bit word: bits shifted past bit 63 are lost. */
  function Shl64(x: nat, s: nat): uint64
  {
    Shl(x, s) % WORD_MODULUS
  }

  /** `x & (2^w - 1)`: the low `w` bits of `x`. */
  function Low(x: nat, w: nat): nat
  {
    if w == 0 then 0 else 2 * Low(x / 2, w - 1) + x % 2
  }

  /** `(x >> i) & 1 != 0` */
  predicate Bit(x: nat, i: nat)
  {
    Shr(x, i) % 2 == 1
  }

  /** `(x >> lo) & (2^width - 1)`: the `width`-bit field of `x` starting at bit `lo`. */
  function Field(x: nat, lo: nat, width: nat): nat
  {
    Low(Shr(x, lo), width)
  }

  /** `x | y`, one bit at a time from the least significant end. */
  function Or(x: nat, y: nat): nat
    decreases x + y
  {
    if x == 0 then y
    else if y == 0 then x
    else 2 * Or(x / 2, y / 2) + (if x % 2 == 1 || y % 2 == 1 then 1 else 0)
  }

  lemma Pow2Values()
    ensures Pow2(1) == 2 && Pow2(2) == 4 && Pow2(3) == 8 && Pow2(4) == 16 && Pow2(5) == 32
    ensures Pow2(9) == 512 && Pow2(10) == 1024 && Pow2(12) == 4096
    ensures Pow2(26) == 0x400_0000 && Pow2(39) == 0x80_0000_0000
    ensures Pow2(52) == 0x10_0000_0000_0000 && Pow2(56) == 0x100_0000_0000_0000
    ensures Pow2(62) == 0x4000_0000_0000_0000 && Pow2(64) == WORD_MODULUS
  {
    Pow2Small();
    assert Pow2(16) == 256 * 256 by { Pow2Add(8, 8); }
    assert Pow2(24) == 0x100_0000 by { Pow2Add(16, 8); }
    assert Pow2(26) == 0x400_0000 by { Pow2Add(24, 2); }
    assert Pow2(32) == 0x1_0000_0000 by { Pow2Add(16, 16); }
    assert Pow2(39) == 0x80_0000_0000 by { Pow2Add(32, 7); }
    assert Pow2(48) == 0x1_0000_0000_0000 by { Pow2Add(32, 16); }
    assert Pow2(52) == 0x10_0000_0000_0000 by { Pow2Add(48, 4); }
    assert Pow2(56) == 0x100_0000_0000_0000 by { Pow2Add(48, 8); }
    assert Pow2(62) == 0x4000_0000_0000_0000 by { Pow2Add(56, 6); }
    assert Pow2(64) == WORD_MODULUS by { Pow2Add(32, 32); }
  }

  lemma Pow2Small()
    ensures Pow2(1) == 2 && Pow2(2) == 4 && Pow2(3) == 8 && Pow2(4) == 16 && Pow2(5) == 32
    ensures Pow2(6) == 64 && Pow2(7) == 128 && Pow2(8) == 256
    ensures Pow2(9) == 512 && Pow2(10) == 1024 && Pow2(12) == 4096
  {
  }

  lemma {:induction false} Pow2Add(a: nat, b: nat)
    ensures Pow2(a + b) == Pow2(a) * Pow2(b)
  {
    if a > 0 {
      Pow2Add(a - 1, b);
    }
  }

  lemma {:induction false} Pow2Monotone(a: nat, b: nat)
    requires a <= b
    ensures Pow2(a) <= Pow2(b)
    decreases b
  {
    if a < b {
      Pow2Monotone(a, b - 1);
    }
  }

  /** The low `w` bits form a `w`-bit value, and a value that already fits is unchanged. */
  lemma {:induction false} LowBound(x: nat, w: nat)
    ensures Low(x, w) < Pow2(w)
    ensures x < Pow2(w) ==> Low(x, w) == x
  {
    if w > 0 {
      LowBound(x / 2, w - 1);
    }
  }

  /** A right shift undoes a left shift. */
  lemma {:induction false} ShrShl(z: nat, s: nat)
    ensures Shr(Shl(z, s), s) == z
  {
    if s > 0 {
      ShrShl(z, s - 1);
      ShrOfDouble(Shl(z, s - 1), s - 1);
    }
  }

  lemma {:induction false} ShrOfDouble(z: nat, s: nat)
    ensures Shr(2 * z, s + 1) == Shr(z, s)
  {
  }

  /** A left shift undoes a right shift when the bits shifted out were zero. */
  lemma {:induction false} ShlShr(p: nat, s: nat)
    requires Low(p, s) == 0
    ensures Shl(Shr(p, s), s) == p
  {
    if s > 0 {
      ShlShr(p / 2, s - 1);
      ShlPeel(Shr(p / 2, s - 1), s - 1);
    }
  }

  /** `Shl` can peel its factor two off either end. */
  lemma {:induction false} ShlPeel(z: nat, s: nat)
    ensures Shl(z, s + 1) == 2 * Shl(z, s)
    ensures Shl(2 * z, s) == Shl(z, s + 1)
  {
    if s > 0 {
      ShlPeel(z, s - 1);
    }
  }

  /** Shifting right by `s` removes `s` bits of magnitude. */
  lemma {:induction false} ShrBound(x: nat, s: nat, n: nat)
    requires x < Pow2(n + s)
    ensures Shr(x, s) < Pow2(n)
  {
    if s > 0 {
      ShrBound(x / 2, s - 1, n);
    }
  }

  /** Shifting left by `s` adds `s` bits of magnitude. */
  lemma {:induction false} ShlBound(z: nat, s: nat, n: nat)
    requires z < Pow2(n)
    ensures Shl(z, s) < Pow2(n + s)
  {
    if s > 0 {
      ShlBound(z, s - 1, n);
    }
  }

  /** A value shifted left by `s` has its low `k <= s` bits clear. */
  lemma {:induction false} LowShl(z: nat, s: nat, k: nat)
    requires k <= s
    ensures Low(Shl(z, s), k) == 0
  {
    if k > 0 {
      ShlPeel(z, s - 1);
      LowShl(z, s - 1, k - 1);
    }
  }

  /** Masking with `0xFFF` and reducing modulo 4096 agree. */
  lemma Low12(x: nat)
    ensures Low(x, 12) == x % 4096
  {
    var x1 := x / 2;
    var x2 := x1 / 2;
    var x3 := x2 / 2;
    var x4 := x3 / 2;
    var x5 := x4 / 2;
    var x6 := x5 / 2;
    var x7 := x6 / 2;
    var x8 := x7 / 2;
    var x9 := x8 / 2;
    var x10 := x9 / 2;
    var x11 := x10 / 2;
    assert Low(x11, 1) == x11 % 2;
    assert Low(x10, 2) == x10 % 4 by { ModDouble(x10, 2); }
    assert Low(x9, 3) == x9 % 8 by { ModDouble(x9, 4); }
    assert Low(x8, 4) == x8 % 16 by { ModDouble(x8, 8); }
    assert Low(x7, 5) == x7 % 32 by { ModDouble(x7, 16); }
    assert Low(x6, 6) == x6 % 64 by { ModDouble(x6, 32); }
    assert Low(x5, 7) == x5 % 128 by { ModDouble(x5, 64); }
    assert Low(x4, 8) == x4 % 256 by { ModDouble(x4, 128); }
    assert Low(x3, 9) == x3 % 512 by { ModDouble(x3, 256); }
    assert Low(x2, 10) == x2 % 1024 by { ModDouble(x2, 512); }
    assert Low(x1, 11) == x1 % 2048 by { ModDouble(x1, 1024); }
    ModDouble(x, 2048);
  }

  /** Reducing modulo `2m` keeps the low bit and reduces the rest modulo `m`. */
  lemma ModDouble(x: nat, m: nat)
    requires m > 0
    ensures x % (2 * m) == 2 * ((x / 2) % m) + x % 2
  {
    var q := (x / 2) / m;
    var s := (x / 2) % m;
    assert x / 2 == m * q + s;
    assert x == 2 * (m * q) + 2 * s + x % 2;
    assert x == (2 * m) * q + (2 * s + x % 2);
    assert 2 * s + x % 2 < 2 * m;
    DivModUnique(x, 2 * m, q, 2 * s + x % 2);
  }

  lemma DivModUnique(x: int, d: int, q: int, r: int)
    requires d > 0 && 0 <= r < d && x == d * q + r
    ensures x % d == r
  {
    var q' := x / d;
    var r' := x % d;
    assert d * q + r == d * q' + r';
    if q' < q {
      assert d * q == d * q' + d * (q - q');
      assert d * (q - q') >= d by { MulAtLeast(d, q - q'); }
    } else if q' > q {
      assert d * q' == d * q + d * (q' - q);
      assert d * (q' - q) >= d by { MulAtLeast(d, q' - q); }
    }
  }

  lemma MulAtLeast(d: int, k: int)
    requires d > 0 && k >= 1
    ensures d * k >= d
  {
  }

  /** Bit `i` of a value is bit `i + 1` of twice it plus a low bit. */
  lemma {:induction false} OrHalf(x: nat, y: nat)
    ensures Or(x, y) / 2 == Or(x / 2, y / 2)
    ensures Or(x, y) % 2 == (if x % 2 == 1 || y % 2 == 1 then 1 else 0)
  {
  }

  /** The bits of `x | y` are the disjunction of the bits of `x` and `y`. */
  lemma {:induction false} OrBit(x: nat, y: nat, i: nat)
    ensures Bit(Or(x, y), i) <==> Bit(x, i) || Bit(y, i)
  {
    if i > 0 {
      OrHalf(x, y);
      OrBit(x / 2, y / 2, i - 1);
    } else {
      OrHalf(x, y);
    }
  }

  /** OR-ing in a value below bit `k` leaves everything from bit `k` up alone. */
  lemma {:induction false} OrHigh(x: nat, y: nat, k: nat)
    requires y < Pow2(k)
    ensures Shr(Or(x, y), k) == Shr(x, k)
  {
    if k > 0 {
      OrHalf(x, y);
      OrHigh(x / 2, y / 2, k - 1);
    } else {
      assert y == 0;
    }
  }

  /** OR of two values whose set bits do not overlap is their sum: `x` has its
      low `k` bits clear and `y` lives entirely in them. */
  lemma {:induction false} OrDisjoint(x: nat, y: nat, k: nat)
    requires Low(x, k) == 0
    requires y < Pow2(k)
    ensures Or(x, y) == x + y
  {
    if k > 0 && x != 0 && y != 0 {
      OrDisjoint(x / 2, y / 2, k - 1);
    } else if k == 0 {
      assert y == 0;
    }
  }

  /** Two values that fit in `n` bits have an OR that fits in `n` bits. */
  lemma {:induction false} OrBound(x: nat, y: nat, n: nat)
    requires x < Pow2(n) && y < Pow2(n)
    ensures Or(x, y) < Pow2(n)
  {
    if n > 0 && x != 0 && y != 0 {
      OrBound(x / 2, y / 2, n - 1);
    }
  }

  /** The low `w` bits of an OR are the OR of the low bits. */
  lemma {:induction false} OrLow(x: nat, y: nat, w: nat)
    ensures Low(Or(x, y), w) == Or(Low(x, w), Low(y, w))
  {
    if w > 0 {
      OrHalf(x, y);
      OrLow(x / 2, y / 2, w - 1);
      OrHalf(Low(x, w), Low(y, w));
    }
  }

  /** A right shift distributes over OR. */
  lemma {:induction false} ShrOr(x: nat, y: nat, s: nat)
    ensures Shr(Or(x, y), s) == Or(Shr(x, s), Shr(y, s))
  {
    if s > 0 {
      OrHalf(x, y);
      ShrOr(x / 2, y / 2, s - 1);
    }
  }

  /** A field of an OR is the OR of the fields. */
  lemma FieldOr(x: nat, y: nat, lo: nat, w: nat)
    ensures Field(Or(x, y), lo, w) == Or(Field(x, lo, w), Field(y, lo, w))
  {
    ShrOr(x, y, lo);
    OrLow(Shr(x, lo), Shr(y, lo), w);
  }

  /** OR with zero is the identity on either side. */
  lemma OrZero(x: nat)
    ensures Or(x, 0) == x && Or(0, x) == x
  {
  }

  /** Shifting right by `a` and then by `b` is shifting right by `a + b`. */
  lemma {:induction false} ShrShr(x: nat, a: nat, b: nat)
    ensures Shr(Shr(x, a), b) == Shr(x, a + b)
  {
    if a > 0 {
      ShrShr(x / 2, a - 1, b);
    }
  }

  /** Shifting a shifted-left value right by at least as much. */
  lemma ShrOfShl(z: nat, s: nat, t: nat)
    requires s <= t
    ensures Shr(Shl(z, s), t) == Shr(z, t - s)
  {
    ShrShl(z, s);
    ShrShr(Shl(z, s), s, t - s);
  }

  /** Shifting a shifted-left value right by less: what remains is shifted left. */
  lemma {:induction false} ShrOfShlLess(z: nat, s: nat, t: nat)
    requires t <= s
    ensures Shr(Shl(z, s), t) == Shl(z, s - t)
  {
    if t > 0 {
      ShlPeel(z, s - 1);
      ShrOfShlLess(z, s - 1, t - 1);
    }
  }

  /** A value below 2^s vanishes when shifted right by s. */
  lemma ShrSmall(x: nat, s: nat)
    requires x < Pow2(s)
    ensures Shr(x, s) == 0
  {
    ShrBound(x, s, 0);
  }

  /** The field `[lo, lo + w)` of `z << s`, when the field lies wholly above
      or wholly below bit `s`. */
  lemma FieldOfShl(z: nat, s: nat, lo: nat, w: nat)
    ensures lo >= s ==> Field(Shl(z, s), lo, w) == Field(z, lo - s, w)
    ensures lo + w <= s ==> Field(Shl(z, s), lo, w) == 0
  {
    if lo >= s {
      ShrOfShl(z, s, lo);
    } else if lo + w <= s {
      ShrOfShlLess(z, s, lo);
      LowShl(z, s - lo, w);
    }
  }

  /** A field of a value that lies below the field is zero. */
  lemma FieldOfSmall(x: nat, lo: nat, w: nat)
    requires x < Pow2(lo)
    ensures Field(x, lo, w) == 0
  {
    ShrSmall(x, lo);
    LowOfZero(w);
  }

  lemma {:induction false} LowOfZero(w: nat)
    ensures Low(0, w) == 0
  {
    if w > 0 {
      LowOfZero(w - 1);
    }
  }

  /** Bits below `k` of a value whose low `k` bits are clear are clear. */
  lemma {:induction false} LowZeroBit(x: nat, k: nat, i: nat)
    requires Low(x, k) == 0 && i < k
    ensures !Bit(x, i)
  {
    if i > 0 {
      LowZeroBit(x / 2, k - 1, i - 1);
    }
  }

  /** A bit is a one-bit field. */
  lemma BitIsField(x: nat, i: nat)
    ensures Bit(x, i) <==> Field(x, i, 1) == 1
  {
    assert Low(Shr(x, i), 1) == 2 * Low(Shr(x, i) / 2, 0) + Shr(x, i) % 2;
  }

  /** A left shift that stays below 2^64 does not wrap. */
  lemma Shl64NoWrap(z: nat, s: nat, n: nat)
    requires z < Pow2(n) && n + s <= 64
    ensures Shl64(z, s) == Shl(z, s) && Shl(z, s) < Pow2(n + s)
  {
    ShlBound(z, s, n);
    Pow2Monotone(n + s, 64);
    Pow2Values();
  }

  /** The bits at or above `k` and the low `k` bits together make up the value. */
  lemma {:induction false} SplitAt(x: nat, k: nat)
    ensures x == Shl(Shr(x, k), k) + Low(x, k)
  {
    if k > 0 {
      SplitAt(x / 2, k - 1);
      ShlPeel(Shr(x / 2, k - 1), k - 1);
    }
  }
}
