/** JavaScript's bitwise shift on numbers: the operands go through ECMAScript ToInt32
    (section 7.1.6 of ECMA-262) and the result wraps to 32-bit two's complement. */
module Int32 {

  function Pow2(n: nat): (p: nat)
    ensures p >= 1
  {
    if n == 0 then 1 else 2 * Pow2(n - 1)
  }

  /** ToInt32 of an integer: wrap into [-2^31, 2^31). */
  function ToInt32(x: int): (y: int)
    ensures -0x8000_0000 <= y < 0x8000_0000
    ensures -0x8000_0000 <= x < 0x8000_0000 ==> y == x
    ensures (y - x) % 0x1_0000_0000 == 0
  {
    if -0x8000_0000 <= x < 0x8000_0000 then x
    else (x + 0x8000_0000) % 0x1_0000_0000 - 0x8000_0000
  }

  /** `x << n`: the shift count is taken modulo 32, and the result is `x` times that
      power of two, wrapped to the signed 32-bit range. */
  function ShiftLeft(x: int, n: nat): (r: int)
    ensures -0x8000_0000 <= r < 0x8000_0000
    ensures n % 32 == 0 ==> r == ToInt32(x)
  {
    ToInt32(ToInt32(x) * Pow2(n % 32))
  }

  /** The shift agrees with multiplying `x` by that power of two modulo 2^32. */
  lemma ShiftLeftWraps(x: int, n: nat)
    ensures (ShiftLeft(x, n) - x * Pow2(n % 32)) % 0x1_0000_0000 == 0
  {
    var y := ToInt32(x) * Pow2(n % 32);
    MulCongruent(ToInt32(x), x, Pow2(n % 32));
    Congruent(ToInt32(y), y, x * Pow2(n % 32));
  }

  /** Congruence modulo 2^32 is transitive. */
  lemma Congruent(a: int, b: int, c: int)
    requires (a - b) % 0x1_0000_0000 == 0 && (b - c) % 0x1_0000_0000 == 0
    ensures (a - c) % 0x1_0000_0000 == 0
  {
    var k1, k2 := (a - b) / 0x1_0000_0000, (b - c) / 0x1_0000_0000;
    assert a - c == 0x1_0000_0000 * (k1 + k2);
  }

  /** Congruence modulo 2^32 survives multiplying both sides by the same factor. */
  lemma MulCongruent(a: int, b: int, p: int)
    requires (a - b) % 0x1_0000_0000 == 0
    ensures (a * p - b * p) % 0x1_0000_0000 == 0
  {
    var k := (a - b) / 0x1_0000_0000;
    assert a - b == 0x1_0000_0000 * k;
    assert a * p - b * p == 0x1_0000_0000 * (k * p) by {
      assert a * p - b * p == (a - b) * p;
    }
  }

  lemma {:induction false} Pow2Add(a: nat, b: nat)
    ensures Pow2(a + b) == Pow2(a) * Pow2(b)
  {
    if a > 0 {
      Pow2Add(a - 1, b);
    }
  }

  /** A shift that stays inside the signed 32-bit range multiplies by a power of two. */
  lemma ShiftNoWrap(x: int, n: nat)
    requires n < 32 && 0 <= x < 0x8000_0000 && x * Pow2(n) < 0x8000_0000
    ensures ShiftLeft(x, n) == x * Pow2(n)
  {
    assert n % 32 == n;
  }

  /** The shifts `rgbToHex` performs on bytes do not wrap. */
  lemma ShiftBytes(r: int, g: int)
    requires 0 <= r < 256 && 0 <= g < 256
    ensures ShiftLeft(1, 24) == 0x100_0000
    ensures ShiftLeft(r, 16) == r * 0x1_0000
    ensures ShiftLeft(g, 8) == g * 0x100
  {
    assert Pow2(8) == 256;
    Pow2Add(8, 8);
    Pow2Add(16, 8);
    ShiftNoWrap(1, 24);
    ShiftNoWrap(r, 16);
    ShiftNoWrap(g, 8);
  }
}
