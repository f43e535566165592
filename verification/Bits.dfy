/** Fixed-width integers and the C bit operators on them, written arithmetically.

    A `uint8_t`, `uint16_t` or `uint32_t` of the C source is a natural number here; each
    place where C wraps or truncates applies U8, U16 or U32. The operators `&` and `|` are
    defined bit by bit (see AndBit and OrBit), shifts by multiplication and division by
    powers of two. */
module Bits {

  type byte = b: int | 0 <= b < 0x100

  const TWO_TO_32: nat := 0x1_0000_0000

  function U8(x: int): (r: byte) { x % 0x100 }

  function U16(x: int): (r: nat)
    ensures r < 0x1_0000
  {
    x % 0x1_0000
  }

  function U32(x: int): (r: nat)
    ensures r < TWO_TO_32
  {
    x % TWO_TO_32
  }

  /** Conversion of a 32-bit pattern to the two's complement `int` of the target. */
  function I32(x: int): (r: int)
    ensures -0x8000_0000 <= r < 0x8000_0000
  {
    var u := U32(x);
    if u < 0x8000_0000 then u else u - TWO_TO_32
  }

  function Min(a: int, b: int): (r: int)
    ensures r <= a && r <= b && (r == a || r == b)
  {
    if a < b then a else b
  }

  function Pow2(k: nat): (r: nat)
    ensures r > 0
  {
    if k == 0 then 1 else 2 * Pow2(k - 1)
  }

  function Shl(x: nat, k: nat): nat { x * Pow2(k) }

  function Shr(x: nat, k: nat): nat { DivNonNegative(x, Pow2(k)); x / Pow2(k) }

  /** Bit i of x. */
  predicate Bit(x: nat, i: nat)
  {
    if i == 0 then x % 2 == 1 else Bit(x / 2, i - 1)
  }

  function And(x: nat, y: nat): nat
  {
    if x == 0 || y == 0 then 0
    else 2 * And(x / 2, y / 2) + (if x % 2 == 1 && y % 2 == 1 then 1 else 0)
  }

  function Or(x: nat, y: nat): nat
  {
    if x == 0 then y
    else if y == 0 then x
    else 2 * Or(x / 2, y / 2) + (if x % 2 == 1 || y % 2 == 1 then 1 else 0)
  }

  lemma ZeroBits(i: nat)
    ensures !Bit(0, i)
  {
    if i > 0 {
      ZeroBits(i - 1);
    }
  }

  /** And is the bitwise conjunction: every bit of the result is the conjunction of the bits. */
  lemma {:induction false} AndBit(x: nat, y: nat, i: nat)
    ensures Bit(And(x, y), i) <==> Bit(x, i) && Bit(y, i)
  {
    if x == 0 || y == 0 {
      ZeroBits(i);
    } else {
      var h := And(x / 2, y / 2);
      BitStep(And(x, y), h, x % 2 == 1 && y % 2 == 1, i);
      if i > 0 {
        AndBit(x / 2, y / 2, i - 1);
      }
    }
  }

  /** Or is the bitwise disjunction. */
  lemma {:induction false} OrBit(x: nat, y: nat, i: nat)
    ensures Bit(Or(x, y), i) <==> Bit(x, i) || Bit(y, i)
  {
    if x == 0 || y == 0 {
      ZeroBits(i);
    } else {
      var h := Or(x / 2, y / 2);
      BitStep(Or(x, y), h, x % 2 == 1 || y % 2 == 1, i);
      if i > 0 {
        OrBit(x / 2, y / 2, i - 1);
      }
    }
  }

  lemma BitStep(x: nat, h: nat, low: bool, i: nat)
    requires x == 2 * h + (if low then 1 else 0)
    ensures Bit(x, i) == if i == 0 then low else Bit(h, i - 1)
  {
    assert x / 2 == h;
  }

  // ---------- division and remainder ----------

  lemma DivModUnique(x: int, d: int, q: int, r: int)
    requires 0 <= r < d
    requires x == q * d + r
    ensures x / d == q && x % d == r
  {
    var q', r' := x / d, x % d;
    assert x == d * q' + r';
    assert d * (q' - q) == r - r';
    if q' > q {
      MulLe(d, 1, q' - q);
    } else if q' < q {
      MulLe(d, 1, q - q');
    }
  }

  lemma MulLe(d: int, a: int, b: int)
    requires 0 <= d && a <= b
    ensures d * a <= d * b
  {
  }

  /** The quotient is the largest q with q * d <= x. */
  lemma DivBounds(x: int, d: int)
    requires 0 < d
    ensures (x / d) * d <= x < (x / d + 1) * d
  {
    assert x == d * (x / d) + x % d;
  }

  lemma DivNonNegative(x: nat, d: nat)
    requires 0 < d
    ensures 0 <= x / d
  {
    DivBounds(x, d);
    if x / d < 0 {
      MulLe(d, x / d + 1, 0);
    }
  }

  lemma ModMulRemoved(x: int, a: int, m: int)
    requires 0 < m
    ensures (x + a * m) % m == x % m
  {
    assert x + a * m == (x / m + a) * m + x % m;
    DivModUnique(x + a * m, m, x / m + a, x % m);
  }

  lemma ModAddSmall(x: int, i: nat, m: int)
    requires 0 < m && x % m + i < m
    ensures (x + i) % m == x % m + i
  {
    assert x + i == (x / m) * m + (x % m + i);
    DivModUnique(x + i, m, x / m, x % m + i);
  }

  lemma ModDiffers(x: int, d: nat, m: int)
    requires 0 < d < m
    ensures x % m != (x + d) % m
  {
    var q, r := x / m, x % m;
    assert x == q * m + r;
    if r + d < m {
      DivModUnique(x + d, m, q, r + d);
    } else {
      assert (q + 1) * m == q * m + m;
      DivModUnique(x + d, m, q + 1, r + d - m);
    }
  }

  lemma ModFill(x: int, m: int)
    requires 0 < m
    ensures (x + (m - x % m)) % m == 0
  {
    var y := x + (m - x % m);
    assert y == (x / m) * m + m;
    assert y == (x / m + 1) * m;
    DivModUnique(y, m, x / m + 1, 0);
  }

  /** Wrapping before or after an addition gives the same 32 bits. */
  lemma WrapAdd(x: int, y: int)
    ensures U32(U32(x) + y) == U32(x + y)
  {
    var q := x / TWO_TO_32;
    assert x + y == U32(x) + y + q * TWO_TO_32;
    ModMulRemoved(U32(x) + y, q, TWO_TO_32);
  }

  lemma WrapDifference(x: nat, y: nat)
    requires 0 <= x - y < TWO_TO_32
    ensures U32(U32(x) - U32(y)) == x - y
    ensures U32(x) == U32(y) <==> x == y
  {
    assert x == x / TWO_TO_32 * TWO_TO_32 + U32(x);
    assert y == y / TWO_TO_32 * TWO_TO_32 + U32(y);
  }

  lemma Pow2Add(a: nat, b: nat)
    ensures Pow2(a + b) == Pow2(a) * Pow2(b)
  {
    if a > 0 {
      Pow2Add(a - 1, b);
      assert Pow2(a + b) == 2 * Pow2(a - 1 + b);
    }
  }

  lemma Pow2Monotone(a: nat, b: nat)
    requires a <= b
    ensures Pow2(a) <= Pow2(b)
  {
    if a < b {
      Pow2Monotone(a, b - 1);
    }
  }

  lemma Pow2Of32()
    ensures Pow2(8) == 0x100 && Pow2(30) == 0x4000_0000 && Pow2(32) == TWO_TO_32
  {
    assert Pow2(8) == 0x100;
    assert Pow2(16) == 0x1_0000 by { Pow2Add(8, 8); }
    assert Pow2(24) == 0x100_0000 by { Pow2Add(16, 8); }
    assert Pow2(32) == 0x1_0000_0000 by { Pow2Add(16, 16); }
    assert Pow2(30) == 0x4000_0000 by { Pow2Add(30, 2); assert Pow2(2) == 4; }
  }

  // ---------- masks ----------

  lemma ModDouble(x: nat, m: nat)
    requires 0 < m
    ensures x % (2 * m) == 2 * (x / 2 % m) + x % 2
  {
    var h := x / 2;
    var q, r := h / m, h % m;
    assert h == q * m + r;
    assert q * (2 * m) == 2 * (q * m);
    DivModUnique(x, 2 * m, q, 2 * r + x % 2);
  }

  /** Masking with 2^k - 1 keeps the remainder modulo 2^k. */
  lemma {:induction false} MaskIsMod(x: nat, k: nat)
    ensures And(x, Pow2(k) - 1) == x % Pow2(k)
  {
    if k == 0 {
      assert x % 1 == 0;
    } else if x == 0 {
      DivModUnique(0, Pow2(k), 0, 0);
    } else {
      var m := Pow2(k - 1);
      AndOddMask(x, m);
      MaskIsMod(x / 2, k - 1);
      ModDouble(x, m);
    }
  }

  lemma AndOddMask(x: nat, m: nat)
    requires 0 < m
    ensures And(x, 2 * m - 1) == 2 * And(x / 2, m - 1) + x % 2
  {
    assert (2 * m - 1) / 2 == m - 1 && (2 * m - 1) % 2 == 1;
  }

  /** A field put below the bits of a shifted value is simply added. */
  lemma {:induction false} OrDisjoint(x: nat, y: nat, k: nat)
    requires y < Pow2(k)
    ensures Or(Shl(x, k), y) == Shl(x, k) + y
  {
    var m := Pow2(k);
    if k == 0 || x == 0 || y == 0 {
    } else {
      var h := Pow2(k - 1);
      assert x * m == 2 * (x * h);
      assert x * h > 0;
      OrDisjoint(x, y / 2, k - 1);
      assert (x * m) / 2 == x * h && (x * m) % 2 == 0;
    }
  }

  /** A power of two that divides 2^32 sees through the 32-bit wrap. */
  lemma {:induction false} WrapTransparent(x: int, k: nat)
    requires k <= 32
    ensures U32(x) % Pow2(k) == x % Pow2(k)
  {
    var q := x / TWO_TO_32;
    var a, m := Pow2(32 - k), Pow2(k);
    assert a * m == TWO_TO_32 by {
      Pow2Of32();
      Pow2Add(32 - k, k);
    }
    assert x == U32(x) + (q * a) * m by {
      Associate(q, a, m);
    }
    ModMulRemoved(U32(x), q * a, m);
  }

  lemma Associate(a: int, b: int, c: int)
    ensures a * (b * c) == (a * b) * c
  {
  }
}
