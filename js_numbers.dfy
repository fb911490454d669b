/**
 * The JavaScript integer operators the payload formatter relies on, modelled
 * exactly over mathematical integers.
 *
 * ECMAScript applies the bitwise operators `<<`, `>>`, `&` and `|` to the
 * 32-bit two's-complement patterns of their operands (the ToInt32 / ToUint32
 * conversions) and reads the result back as a signed 32-bit integer. Here a
 * pattern is the natural number it denotes in [0, 2^32), and `&` and `|` are
 * the bit-by-bit functions BitAnd and BitOr on natural numbers.
 */
module JsNumbers {

  /** An 8-bit value, the element type of uplink and downlink frames. */
  type Byte = b: int | 0 <= b < 256

  const TWO_32: int := 0x1_0000_0000
  const TWO_31: int := 0x8000_0000

  function Pow2(n: nat): (r: nat)
    ensures r >= 1
  {
    if n == 0 then 1 else 2 * Pow2(n - 1)
  }

  lemma {:induction false} Pow2Add(m: nat, n: nat)
    ensures Pow2(m + n) == Pow2(m) * Pow2(n)
  {
    if m > 0 {
      Pow2Add(m - 1, n);
    }
  }

  lemma Pow2Of32()
    ensures Pow2(32) == TWO_32
  {
    assert Pow2(8) == 256;
    Pow2Add(8, 8);
    Pow2Add(16, 16);
  }

  function Abs(x: int): (r: nat)
    ensures r == x || r == -x
  {
    if x < 0 then -x else x
  }

  // ---------------------------------------------------------------------------
  // Euclidean division facts used by the bit-level proofs
  // ---------------------------------------------------------------------------

  /** Quotient and remainder are determined by the defining equation. */
  lemma DivModUnique(a: int, d: int, q: int, m: int)
    requires d > 0 && a == d * q + m && 0 <= m < d
    ensures a / d == q && a % d == m
  {
    var q0, m0 := a / d, a % d;
    assert d * (q - q0) == m0 - m;
    MulAtLeast(d, q - q0);
  }

  lemma {:induction false} MulAtLeast(d: int, k: int)
    requires d > 0
    ensures k >= 1 ==> d * k >= d
    ensures k <= -1 ==> d * k <= -d
    decreases if k < 0 then -k else k
  {
    if k > 1 {
      MulAtLeast(d, k - 1);
      assert d * k == d * (k - 1) + d;
    } else if k < -1 {
      MulAtLeast(d, k + 1);
      assert d * k == d * (k + 1) - d;
    }
  }

  /** Euclidean division by a positive divisor rounds down. */
  lemma DivBounds(a: int, d: int)
    requires d > 0
    ensures (a / d) * d <= a < (a / d + 1) * d
  {
    assert a == d * (a / d) + a % d;
    assert (a / d + 1) * d == (a / d) * d + d;
  }

  /** Dividing by d and then by e is dividing by d * e, and the remainders nest. */
  lemma DivModNested(a: int, d: int, e: int)
    requires d > 0 && e > 0
    ensures a / (d * e) == (a / d) / e
    ensures a % (d * e) == d * ((a / d) % e) + a % d
  {
    var q, r := a / d, a % d;
    var s, t := q / e, q % e;
    assert a == d * q + r;
    assert q == e * s + t;
    assert a == (d * e) * s + (d * t + r) by {
      assert d * q == d * (e * s) + d * t;
      assert d * (e * s) == (d * e) * s;
    }
    assert d * t <= d * (e - 1);
    DivModUnique(a, d * e, s, d * t + r);
  }

  /** Adding a multiple of d changes neither the remainder nor, beyond the multiple, the quotient. */
  lemma DivModAddMultiple(a: int, d: int, k: int)
    requires d > 0
    ensures (a + d * k) / d == a / d + k
    ensures (a + d * k) % d == a % d
  {
    assert a + d * k == d * (a / d + k) + a % d;
    DivModUnique(a + d * k, d, a / d + k, a % d);
  }

  // ---------------------------------------------------------------------------
  // ToUint32 / ToInt32
  // ---------------------------------------------------------------------------

  /** The 32-bit pattern of an integer, read as an unsigned number. */
  function ToUint32(x: int): (r: nat)
    ensures r < TWO_32
  {
    x % TWO_32
  }

  /** The signed 32-bit integer with the same pattern as x. */
  function ToInt32(x: int): (r: int)
    ensures -TWO_31 <= r < TWO_31
    ensures ToUint32(r) == ToUint32(x)
  {
    var u := ToUint32(x);
    if u >= TWO_31 then
      DivModUnique(u - TWO_32, TWO_32, -1, u);
      u - TWO_32
    else
      DivModUnique(u, TWO_32, 0, u);
      u
  }

  /** ToInt32 changes its argument by a multiple of 2^32 only. */
  lemma ToInt32Congruent(x: int)
    ensures (x - ToInt32(x)) % TWO_32 == 0
  {
    var r := ToInt32(x);
    assert x == TWO_32 * (x / TWO_32) + ToUint32(x);
    assert r == TWO_32 * (r / TWO_32) + ToUint32(r);
    DivModUnique(x - r, TWO_32, x / TWO_32 - r / TWO_32, 0);
  }

  /** A value already in the signed 32-bit range is left as it is. */
  lemma ToInt32Identity(x: int)
    requires -TWO_31 <= x < TWO_31
    ensures ToInt32(x) == x
  {
    if x >= 0 {
      DivModUnique(x, TWO_32, 0, x);
    } else {
      DivModUnique(x, TWO_32, -1, x + TWO_32);
    }
  }

  // ---------------------------------------------------------------------------
  // Bit-by-bit conjunction and disjunction of natural numbers
  // ---------------------------------------------------------------------------

  function BitAnd(a: nat, b: nat): (r: nat)
    ensures r <= a
    decreases a
  {
    if a == 0 || b == 0 then 0
    else 2 * BitAnd(a / 2, b / 2) + (if a % 2 == 1 && b % 2 == 1 then 1 else 0)
  }

  function BitOr(a: nat, b: nat): nat
    decreases a + b
  {
    if a == 0 then b
    else if b == 0 then a
    else 2 * BitOr(a / 2, b / 2) + (if a % 2 == 1 || b % 2 == 1 then 1 else 0)
  }

  /** Or-ing two numbers below 2^k stays below 2^k. */
  lemma {:induction false} BitOrBelow(a: nat, b: nat, k: nat)
    requires a < Pow2(k) && b < Pow2(k)
    ensures BitOr(a, b) < Pow2(k)
  {
    if a > 0 && b > 0 {
      BitOrBelow(a / 2, b / 2, k - 1);
    }
  }

  /** A 32-bit pattern is its own ToUint32. */
  lemma ToUint32Identity(u: int)
    requires 0 <= u < TWO_32
    ensures ToUint32(u) == u
  {
    DivModUnique(u, TWO_32, 0, u);
  }

  /** Masking with k one-bits keeps the remainder modulo 2^k. */
  lemma {:induction false} BitAndLowMask(a: nat, k: nat)
    ensures BitAnd(a, Pow2(k) - 1) == a % Pow2(k)
  {
    if k > 0 && a > 0 {
      var p := Pow2(k - 1);
      var m := Pow2(k) - 1;
      assert Pow2(k) == 2 * p;
      assert m / 2 == p - 1 && m % 2 == 1;
      assert BitAnd(a, m) == 2 * BitAnd(a / 2, p - 1) + a % 2;
      BitAndLowMask(a / 2, k - 1);
      DivModNested(a, 2, p);
      assert a % Pow2(k) == 2 * ((a / 2) % p) + a % 2;
    } else {
      if k == 0 {
        DivModUnique(a, 1, a, 0);
      } else {
        DivModUnique(0, Pow2(k), 0, 0);
      }
    }
  }

  /** Masking with the single bit 2^k keeps that bit and nothing else. */
  lemma {:induction false} BitAndSingleBit(a: nat, k: nat)
    ensures BitAnd(a, Pow2(k)) == if (a / Pow2(k)) % 2 == 1 then Pow2(k) else 0
  {
    if a > 0 {
      if k == 0 {
        assert BitAnd(a / 2, 0) == 0;
      } else {
        var p := Pow2(k - 1);
        assert Pow2(k) / 2 == p && Pow2(k) % 2 == 0;
        BitAndSingleBit(a / 2, k - 1);
        DivModNested(a, 2, p);
      }
    }
  }

  /** Or-ing a number below 2^k into a multiple of 2^k is addition. */
  lemma {:induction false} BitOrDisjoint(a: nat, b: nat, k: nat)
    requires b < Pow2(k)
    ensures BitOr(a * Pow2(k), b) == a * Pow2(k) + b
  {
    if k > 0 && a > 0 && b > 0 {
      var p := Pow2(k - 1);
      assert a * Pow2(k) == 2 * (a * p);
      assert (a * Pow2(k)) / 2 == a * p && (a * Pow2(k)) % 2 == 0;
      BitOrDisjoint(a, b / 2, k - 1);
    }
  }

  // ---------------------------------------------------------------------------
  // The JavaScript operators on Numbers that hold integers
  // ---------------------------------------------------------------------------

  /** x << n */
  function ShiftLeft(x: int, n: nat): (r: int)
    requires n < 32
    ensures -TWO_31 <= r < TWO_31
    ensures ToUint32(r) == ToUint32(ToInt32(x) * Pow2(n))
  {
    ToInt32(ToInt32(x) * Pow2(n))
  }

  /** x >> n, the sign-propagating shift: the floor of ToInt32(x) / 2^n. */
  function SignedShiftRight(x: int, n: nat): (r: int)
    requires n < 32
    ensures r * Pow2(n) <= ToInt32(x) < (r + 1) * Pow2(n)
  {
    DivBounds(ToInt32(x), Pow2(n));
    ToInt32(x) / Pow2(n)
  }

  /** x & y: a signed 32-bit integer whose pattern is the bitwise and of the operands' patterns. */
  function BitwiseAnd(x: int, y: int): (r: int)
    ensures -TWO_31 <= r < TWO_31
    ensures ToUint32(r) == BitAnd(ToUint32(x), ToUint32(y))
  {
    ToUint32Identity(BitAnd(ToUint32(x), ToUint32(y)));
    ToInt32(BitAnd(ToUint32(x), ToUint32(y)))
  }

  /** x | y: a signed 32-bit integer whose pattern is the bitwise or of the operands' patterns. */
  function BitwiseOr(x: int, y: int): (r: int)
    ensures -TWO_31 <= r < TWO_31
    ensures ToUint32(r) == BitOr(ToUint32(x), ToUint32(y))
  {
    Pow2Of32();
    BitOrBelow(ToUint32(x), ToUint32(y), 32);
    ToUint32Identity(BitOr(ToUint32(x), ToUint32(y)));
    ToInt32(BitOr(ToUint32(x), ToUint32(y)))
  }

  // ---------------------------------------------------------------------------
  // What the formatter's byte manipulations compute
  // ---------------------------------------------------------------------------

  /** `(hi << 8) | lo` on two bytes is the big-endian 16-bit word hi * 256 + lo. */
  lemma BigEndianWord(hi: int, lo: int)
    requires 0 <= hi < 256 && 0 <= lo < 256
    ensures BitwiseOr(ShiftLeft(hi, 8), lo) == hi * 256 + lo
  {
    ToInt32Identity(hi);
    ToInt32Identity(hi * 256);
    DivModUnique(hi * 256, TWO_32, 0, hi * 256);
    DivModUnique(lo, TWO_32, 0, lo);
    BitOrDisjoint(hi, lo, 8);
    ToInt32Identity(hi * 256 + lo);
  }

  /** On a 16-bit word, `w & 0x8000` is non-zero exactly when the top bit is set. */
  lemma SignBit(w: int)
    requires 0 <= w < 0x1_0000
    ensures (BitwiseAnd(w, 0x8000) != 0) <==> w >= 0x8000
  {
    DivModUnique(w, TWO_32, 0, w);
    DivModUnique(0x8000, TWO_32, 0, 0x8000);
    assert Pow2(15) == 0x8000;
    BitAndSingleBit(w, 15);
    var bit := if w >= 0x8000 then 1 else 0;
    DivModUnique(w, 0x8000, bit, w - 0x8000 * bit);
    assert BitwiseAnd(w, 0x8000) == ToInt32(BitAnd(w, 0x8000));
    ToInt32Identity(BitAnd(w, 0x8000));
  }

  /** `x & 0xFF` is the residue of x modulo 256, for every integer x. */
  lemma LowByte(x: int)
    ensures BitwiseAnd(x, 0xFF) == x % 256
  {
    DivModUnique(0xFF, TWO_32, 0, 0xFF);
    BitAndLowMask(ToUint32(x), 8);
    DivModNested(x, 256, 0x100_0000);
    DivModAddMultiple(ToUint32(x), 256, 0);
    assert ToUint32(x) % 256 == x % 256 by {
      assert x % TWO_32 == 256 * ((x / 256) % 0x100_0000) + x % 256;
      DivModAddMultiple(x % 256, 256, (x / 256) % 0x100_0000);
      DivModUnique(x % 256, 256, 0, x % 256);
    }
    ToInt32Identity(x % 256);
  }

  /** `(x >> 8) & 0xFF` is bits 8 to 15 of x, for every integer x. */
  lemma HighByte(x: int)
    ensures BitwiseAnd(SignedShiftRight(x, 8), 0xFF) == (x / 256) % 256
  {
    var r := ToInt32(x);
    ToInt32Congruent(x);
    var j := (x - r) / TWO_32;
    assert x == r + 256 * (0x100_0000 * j);
    DivModAddMultiple(r, 256, 0x100_0000 * j);
    DivModAddMultiple(r / 256, 256, 0x1_0000 * j);
    LowByte(r / 256);
  }
}
