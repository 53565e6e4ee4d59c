/**
 * Two's-complement integers of the widths C# calls `int`, `uint` and `long`,
 * with the unchecked casts, shifts and bitwise operators that the seek
 * wrapper applies to them.
 *
 * Values are mathematical integers restricted to each type's range. The
 * bitwise operators are defined on the bit pattern of a `long` (its value
 * modulo 2^64), bit by bit, so that a property such as "OR of two disjoint
 * bit ranges is their sum" is a theorem here and not an assumption.
 */
module TwosComplement {

  const TWO_31: int := 0x8000_0000
  const TWO_32: int := 0x1_0000_0000
  const TWO_63: int := 0x8000_0000_0000_0000
  const TWO_64: int := 0x1_0000_0000_0000_0000

  /** C# `int` */
  type Int32 = x: int | -0x8000_0000 <= x < 0x8000_0000
  /** C# `uint` */
  type UInt32 = x: int | 0 <= x < 0x1_0000_0000
  /** C# `long` */
  type Int64 = x: int | -0x8000_0000_0000_0000 <= x < 0x8000_0000_0000_0000
  /** The 64-bit pattern of a `long`, read as an unsigned number */
  type Bits64 = x: int | 0 <= x < 0x1_0000_0000_0000_0000

  function Pow2(k: nat): (p: nat)
    ensures p > 0
  {
    if k == 0 then 1 else 2 * Pow2(k - 1)
  }

  lemma {:induction false} Pow2Sum(a: nat, b: nat)
    ensures Pow2(a + b) == Pow2(a) * Pow2(b)
  {
    if a > 0 {
      Pow2Sum(a - 1, b);
      assert Pow2(a + b) == 2 * Pow2(a - 1 + b);
    }
  }

  lemma Pow2Widths()
    ensures Pow2(32) == TWO_32 && Pow2(64) == TWO_64
  {
    Pow2Of32();
    Pow2Sum(32, 32);
  }

  lemma Pow2Of32()
    ensures Pow2(32) == TWO_32
  {
    Pow2Sum(4, 4);
    assert Pow2(8) == 0x100;
    Pow2Sum(8, 8);
    assert Pow2(16) == 0x1_0000;
    Pow2Sum(16, 16);
  }

  // ---------------------------------------------------------------------
  // Bit patterns and unchecked conversions
  // ---------------------------------------------------------------------

  /** The bit pattern of a `long`. */
  function PatternOf(x: Int64): (u: Bits64)
    ensures (u - x) % TWO_64 == 0
    ensures FromPattern(u) == x
  {
    if x < 0 then x + TWO_64 else x
  }

  /** The `long` whose bit pattern is `u`. */
  function FromPattern(u: Bits64): (x: Int64)
    ensures (u - x) % TWO_64 == 0
  {
    if u < TWO_63 then u else u - TWO_64
  }

  /** Unchecked `(int)v` on a `long`: keeps the low 32 bits, read as signed. */
  function ToInt32(v: Int64): (r: Int32)
    ensures (v - r) % TWO_32 == 0
    ensures -TWO_31 <= v < TWO_31 ==> r == v
  {
    var m := v % TWO_32;
    if m < TWO_31 then m else m - TWO_32
  }

  /** Unchecked `(uint)i` on an `int`: the same 32 bits, read as unsigned. */
  function ToUInt32(i: Int32): (r: UInt32)
    ensures (r - i) % TWO_32 == 0
    ensures ToInt32(r) == i
  {
    if i < 0 then i + TWO_32 else i
  }

  // ---------------------------------------------------------------------
  // Shifts by 32 on a `long`
  // ---------------------------------------------------------------------

  /**
   * `x >> 32` on a `long`: an arithmetic shift, whose vacated high bits copy
   * the sign bit. On two's-complement numbers that is division rounded
   * towards minus infinity, which is what Dafny's `/` does for a positive
   * divisor. The result always fits in an `int`.
   */
  function ShiftRight32(x: Int64): (r: Int64)
    ensures -TWO_31 <= r < TWO_31
    ensures r * TWO_32 <= x < r * TWO_32 + TWO_32
  {
    x / TWO_32
  }

  /** `x << 32` on a `long`: the bits shifted past bit 63 are discarded. */
  function ShiftLeft32(x: Int64): (r: Int64)
    ensures (r - x * TWO_32) % TWO_64 == 0
    ensures -TWO_31 <= x < TWO_31 ==> r == x * TWO_32
  {
    var shifted := x * TWO_32;
    var p := shifted % TWO_64;
    ModOfSum(shifted - FromPattern(p), TWO_64, shifted / TWO_64 + (p - FromPattern(p)) / TWO_64, 0);
    FromPattern(p)
  }

  // ---------------------------------------------------------------------
  // Bitwise AND and OR
  // ---------------------------------------------------------------------

  /** Bitwise AND of two unsigned numbers, lowest bit first. */
  function BitAnd(a: nat, b: nat): (r: nat)
    ensures r <= a && r <= b
    decreases a
  {
    if a == 0 || b == 0 then 0
    else 2 * BitAnd(a / 2, b / 2) + (if a % 2 == 1 && b % 2 == 1 then 1 else 0)
  }

  /** Bitwise OR of two unsigned numbers, lowest bit first. */
  function BitOr(a: nat, b: nat): (r: nat)
    ensures a <= r && b <= r && r <= a + b
    decreases a
  {
    if a == 0 then b
    else if b == 0 then a
    else 2 * BitOr(a / 2, b / 2) + (if a % 2 == 1 || b % 2 == 1 then 1 else 0)
  }

  /** `x & y` on two `long`s. Masking with a non-negative `long` gives a number between 0 and the mask. */
  function And64(x: Int64, y: Int64): (r: Int64)
    ensures 0 <= y ==> 0 <= r <= y
  {
    FromPattern(BitAnd(PatternOf(x), PatternOf(y)))
  }

  /**
   * `x | y` on two `long`s. The sign bit of the result is set exactly when
   * it is set in an operand, and OR of two non-negative `long`s lies
   * between the larger of them and their sum.
   */
  function Or64(x: Int64, y: Int64): (r: Int64)
    ensures r < 0 <==> x < 0 || y < 0
    ensures 0 <= x && 0 <= y ==> x <= r && y <= r && r <= x + y
  {
    Pow2Widths();
    assert Pow2(63) == TWO_63;
    BitOrBelow(PatternOf(x), PatternOf(y), 64);
    assert 0 <= x && 0 <= y ==> BitOr(x, y) < TWO_63 by {
      if 0 <= x && 0 <= y {
        BitOrBelow(x, y, 63);
      }
    }
    FromPattern(BitOr(PatternOf(x), PatternOf(y)))
  }

  // ---------------------------------------------------------------------
  // Lemmas about the bitwise operators
  // ---------------------------------------------------------------------

  /** Taking a number modulo 2m is taking its upper part modulo m and keeping its lowest bit. */
  lemma DivModDouble(x: nat, m: nat)
    requires m > 0
    ensures x % (2 * m) == 2 * ((x / 2) % m) + x % 2
  {
    var q, r := x / 2, x % 2;
    var t, s := q / m, q % m;
    assert x == 2 * m * t + (2 * s + r) by {
      assert q == m * t + s;
    }
    ModOfSum(x, 2 * m, t, 2 * s + r);
  }

  /** Remainders are unique: writing x as d * q + r with 0 <= r < d fixes r as x % d. */
  lemma ModOfSum(x: int, d: nat, q: int, r: int)
    requires d > 0 && 0 <= r < d && x == d * q + r
    ensures x % d == r
  {
    var q', r' := x / d, x % d;
    assert d * (q - q') == r' - r by { assert d * q + r == d * q' + r'; }
    MultipleBelow(d, q - q', r' - r);
  }

  /** The only multiple of d strictly between -d and d is 0. */
  lemma MultipleBelow(d: int, k: int, e: int)
    requires d > 0 && d * k == e && -d < e < d
    ensures k == 0
  {
  }

  /** AND with a mask of k one bits keeps the k lowest bits. */
  lemma {:induction false} BitAndLowMask(x: nat, k: nat)
    ensures BitAnd(x, Pow2(k) - 1) == x % Pow2(k)
  {
    if x == 0 {
      ModOfSum(0, Pow2(k), 0, 0);
    } else if k == 0 {
    } else {
      var m := Pow2(k - 1);
      var mask := Pow2(k) - 1;
      var upper := BitAnd(x / 2, m - 1);
      assert BitAnd(x, mask) == 2 * upper + x % 2 by {
        assert mask / 2 == m - 1 && mask % 2 == 1;
      }
      BitAndLowMask(x / 2, k - 1);
      assert upper == (x / 2) % m;
      DivModDouble(x, m);
      assert Pow2(k) == 2 * m;
    }
  }

  /** OR of a number whose k low bits are clear with a number below 2^k is their sum. */
  lemma {:induction false} BitOrDisjoint(a: nat, b: nat, k: nat)
    requires a % Pow2(k) == 0 && b < Pow2(k)
    ensures BitOr(a, b) == a + b
  {
    if a == 0 || b == 0 {
    } else {
      var m := Pow2(k - 1);
      DivModDouble(a, m);
      assert a % 2 == 0 && (a / 2) % m == 0;
      BitOrDisjoint(a / 2, b / 2, k - 1);
    }
  }

  /** OR does not set a bit above the highest bit of its operands. */
  lemma {:induction false} BitOrBelow(a: nat, b: nat, k: nat)
    requires a < Pow2(k) && b < Pow2(k)
    ensures BitOr(a, b) < Pow2(k)
  {
    if a == 0 || b == 0 {
    } else {
      BitOrBelow(a / 2, b / 2, k - 1);
    }
  }

  /** OR with k one bits sets all of them. */
  lemma {:induction false} BitOrAllOnes(a: nat, k: nat)
    requires a < Pow2(k)
    ensures BitOr(a, Pow2(k) - 1) == Pow2(k) - 1
  {
    if a != 0 && k != 0 {
      assert (Pow2(k) - 1) / 2 == Pow2(k - 1) - 1 && (Pow2(k) - 1) % 2 == 1;
      BitOrAllOnes(a / 2, k - 1);
    }
  }

  /** `x & 0xffffffff` on a `long` is `x` modulo 2^32, a number in [0, 2^32). */
  lemma And64LowMask(x: Int64)
    ensures And64(x, 0xffff_ffff) == x % TWO_32
  {
    Pow2Widths();
    var u := PatternOf(x);
    assert PatternOf(0xffff_ffff) == Pow2(32) - 1;
    BitAndLowMask(u, 32);
    assert u % TWO_32 == x % TWO_32 by {
      if x < 0 {
        ModOfSum(u, TWO_32, x / TWO_32 + TWO_32, x % TWO_32);
      }
    }
  }

  /** `x | y` on `long`s whose set bits cannot overlap is `x + y`. */
  lemma Or64Disjoint(x: Int64, y: Int64)
    requires x % TWO_32 == 0 && 0 <= y < TWO_32
    ensures Or64(x, y) == x + y
  {
    var q := x / TWO_32;
    assert x == TWO_32 * q;
    var u := PatternOf(x);
    if x < 0 {
      assert u == TWO_32 * (q + TWO_32);
    } else {
      assert q < TWO_31;
      assert u + y < TWO_63;
    }
    ModOfSum(u, TWO_32, u / TWO_32, 0);
    Pow2Widths();
    BitOrDisjoint(u, y, 32);
    assert Or64(x, y) == FromPattern(u + y);
  }
}
