/** Hexadecimal digits: the lower-case digits `Number.prototype.toString(16)` writes,
    the case-insensitive digits `parseInt(_, 16)` reads, and fixed-width notation. */
module Hex {

  predicate IsHexDigit(c: char) {
    '0' <= c <= '9' || 'a' <= c <= 'f' || 'A' <= c <= 'F'
  }

  predicate IsLowerHexDigit(c: char) {
    '0' <= c <= '9' || 'a' <= c <= 'f'
  }

  predicate AllLowerHex(s: string) {
    forall i | 0 <= i < |s| :: IsLowerHexDigit(s[i])
  }

  /** The value of a hex digit of either case. */
  function ValueOf(c: char): (v: nat)
    requires IsHexDigit(c)
    ensures v < 16
  {
    if '0' <= c <= '9' then c as int - '0' as int
    else if 'a' <= c <= 'f' then c as int - 'a' as int + 10
    else c as int - 'A' as int + 10
  }

  /** The lower-case digit of a value below 16. */
  function DigitOf(d: int): (c: char)
    requires 0 <= d < 16
    ensures IsLowerHexDigit(c) && ValueOf(c) == d
  {
    if d < 10 then ('0' as int + d) as char else ('a' as int + d - 10) as char
  }

  /** The lower-case form of a hex digit. */
  function LowerDigit(c: char): (l: char)
    requires IsHexDigit(c)
    ensures IsLowerHexDigit(l)
    ensures IsLowerHexDigit(c) ==> l == c
  {
    if 'A' <= c <= 'F' then (c as int + 32) as char else c
  }

  lemma DigitOfValue(c: char)
    requires IsHexDigit(c)
    ensures DigitOf(ValueOf(c)) == LowerDigit(c)
  {
  }

  function Pow16(k: nat): (p: nat)
    ensures p >= 1
  {
    if k == 0 then 1 else 16 * Pow16(k - 1)
  }

  /** Powers of 16 add their exponents when multiplied. */
  lemma {:induction false} Pow16Add(a: nat, b: nat)
    ensures Pow16(a + b) == Pow16(a) * Pow16(b)
  {
    if a > 0 {
      Pow16Add(a - 1, b);
      assert Pow16(a + b) == 16 * Pow16(a - 1 + b);
    }
  }

  /** The value of a string of hex digits, most significant first. */
  function ValueOfDigits(s: string): nat
    requires forall i | 0 <= i < |s| :: IsHexDigit(s[i])
  {
    if s == [] then 0 else 16 * ValueOfDigits(s[..|s| - 1]) + ValueOf(s[|s| - 1])
  }

  /** `n.toString(16)` for a natural number: lower-case digits, no leading zero. */
  function ToHex(n: nat): (r: string)
    ensures |r| >= 1 && AllLowerHex(r)
    ensures r[0] == '0' <==> n == 0
    decreases n
  {
    if n < 16 then [DigitOf(n)] else ToHex(n / 16) + [DigitOf(n % 16)]
  }

  /** `n.toString(16)` for any integer: a `-` sign in front of the magnitude's digits. */
  function ToHexSigned(n: int): (r: string)
    ensures |r| >= 1
    ensures r[0] == '-' <==> n < 0
  {
    if n < 0 then "-" + ToHex(-n) else ToHex(n)
  }

  /** The `k` lowest hex digits of `n`, most significant first, zero-padded. */
  function Fixed(n: nat, k: nat): (r: string)
    ensures |r| == k && AllLowerHex(r)
  {
    if k == 0 then [] else Fixed(n / 16, k - 1) + [DigitOf(n % 16)]
  }

  function Zeros(k: nat): (r: string)
    ensures |r| == k && forall i | 0 <= i < k :: r[i] == '0'
  {
    seq(k, _ => '0')
  }

  lemma {:induction false} ToHexRoundTrip(n: nat)
    ensures ValueOfDigits(ToHex(n)) == n
    decreases n
  {
    if n >= 16 {
      var r := ToHex(n);
      assert r[..|r| - 1] == ToHex(n / 16);
      ToHexRoundTrip(n / 16);
    }
  }

  lemma {:induction false} FixedRoundTrip(n: nat, k: nat)
    requires n < Pow16(k)
    ensures ValueOfDigits(Fixed(n, k)) == n
  {
    if k > 0 {
      var r := Fixed(n, k);
      assert r[..|r| - 1] == Fixed(n / 16, k - 1);
      FixedRoundTrip(n / 16, k - 1);
    }
  }

  lemma {:induction false} FixedOfZero(k: nat)
    ensures Fixed(0, k) == Zeros(k)
  {
    if k > 0 {
      FixedOfZero(k - 1);
    }
  }

  /** Left-padding `n.toString(16)` with zeros to `k` places gives the fixed-width
      notation, whenever `n` fits in `k` digits. */
  lemma {:induction false} PaddedToHex(n: nat, k: nat)
    requires 1 <= k && n < Pow16(k)
    ensures |ToHex(n)| <= k
    ensures Zeros(k - |ToHex(n)|) + ToHex(n) == Fixed(n, k)
    decreases n
  {
    if n < 16 {
      FixedOfZero(k - 1);
      assert Fixed(n, k) == Fixed(0, k - 1) + [DigitOf(n)];
    } else {
      assert k >= 2;
      PaddedToHex(n / 16, k - 1);
      var z := Zeros(k - |ToHex(n)|);
      assert z == Zeros(k - 1 - |ToHex(n / 16)|);
      assert z + ToHex(n) == (z + ToHex(n / 16)) + [DigitOf(n % 16)];
    }
  }

  /** A value with a leading 1 digit above `k` lower digits is written as `1` followed
      by those digits. */
  lemma {:induction false} ToHexLeadingOne(m: nat, k: nat)
    requires m < Pow16(k)
    ensures ToHex(Pow16(k) + m) == "1" + Fixed(m, k)
  {
    if k > 0 {
      var n := Pow16(k) + m;
      assert n == 16 * (Pow16(k - 1) + m / 16) + m % 16;
      assert n / 16 == Pow16(k - 1) + m / 16;
      assert n % 16 == m % 16;
      ToHexLeadingOne(m / 16, k - 1);
    }
  }

  /** Writing a number as high digits followed by `k` low digits. */
  lemma {:induction false} FixedConcat(hi: nat, lo: nat, j: nat, k: nat)
    requires lo < Pow16(k)
    ensures Fixed(hi * Pow16(k) + lo, j + k) == Fixed(hi, j) + Fixed(lo, k)
  {
    if k == 0 {
      assert Fixed(lo, 0) == [];
    } else {
      var n := hi * Pow16(k) + lo;
      assert hi * Pow16(k) == 16 * (hi * Pow16(k - 1));
      assert n / 16 == hi * Pow16(k - 1) + lo / 16;
      assert n % 16 == lo % 16;
      FixedConcat(hi, lo / 16, j, k - 1);
    }
  }

  /** Two hex digits are worth sixteen times the first plus the second. */
  lemma PairValue(s: string)
    requires |s| == 2 && IsHexDigit(s[0]) && IsHexDigit(s[1])
    ensures ValueOfDigits(s) == 16 * ValueOf(s[0]) + ValueOf(s[1]) < 256
  {
    assert s[..1] == [s[0]] && s[..1][..0] == [];
    assert ValueOfDigits(s[..1]) == ValueOf(s[0]);
  }

  lemma FixedPair(hi: nat, lo: nat, v: nat)
    requires hi < 16 && lo < 16 && v == 16 * hi + lo
    ensures Fixed(v, 2) == [DigitOf(hi), DigitOf(lo)]
  {
    assert v / 16 == hi && v % 16 == lo;
    assert Fixed(hi, 1) == [DigitOf(hi)];
  }

  /** Two hex digits of either case, read and written back, come out in lower case. */
  lemma FixedOfPair(s: string)
    requires |s| == 2 && IsHexDigit(s[0]) && IsHexDigit(s[1])
    ensures ValueOfDigits(s) < 256
    ensures Fixed(ValueOfDigits(s), 2) == [LowerDigit(s[0]), LowerDigit(s[1])]
  {
    PairValue(s);
    FixedPair(ValueOf(s[0]), ValueOf(s[1]), ValueOfDigits(s));
    DigitOfValue(s[0]);
    DigitOfValue(s[1]);
  }

  /** Two hex digits of value `lo` written below the digits of `hi`. */
  lemma FixedByteSplit(hi: nat, lo: nat, j: nat, n: nat)
    requires lo < 256 && n == hi * 256 + lo
    ensures Fixed(n, j + 2) == Fixed(hi, j) + Fixed(lo, 2)
  {
    assert Pow16(2) == 256;
    FixedConcat(hi, lo, j, 2);
  }

  /** The six digits of a 24-bit value are the digit pairs of its three bytes. */
  lemma FixedOfBytes(x: nat, y: nat, z: nat, n: nat)
    requires x < 256 && y < 256 && z < 256
    requires n == x * 0x1_0000 + y * 0x100 + z
    ensures Fixed(n, 6) == Fixed(x, 2) + Fixed(y, 2) + Fixed(z, 2)
  {
    var hi := x * 256 + y;
    FixedByteSplit(x, y, 2, hi);
    FixedByteSplit(hi, z, 4, n);
  }

  lemma Pow16Values()
    ensures Pow16(2) == 0x100 && Pow16(4) == 0x1_0000 && Pow16(6) == 0x100_0000
  {
    assert Pow16(2) == 256;
    assert Pow16(4) == 16 * (16 * Pow16(2));
    assert Pow16(6) == 16 * (16 * Pow16(4));
  }

  /** A 1 above three bytes is written as `1` and the bytes' digit pairs. */
  lemma ToHexOfBytes(x: nat, y: nat, z: nat, n: nat)
    requires x < 256 && y < 256 && z < 256
    requires n == 0x100_0000 + x * 0x1_0000 + y * 0x100 + z
    ensures ToHex(n) == "1" + Fixed(x, 2) + Fixed(y, 2) + Fixed(z, 2)
  {
    var m := n - 0x100_0000;
    Pow16Values();
    ToHexLeadingOne(m, 6);
    FixedOfBytes(x, y, z, m);
  }
}
