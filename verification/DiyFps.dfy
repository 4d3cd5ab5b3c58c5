// external/double-conversion/diy-fp.h: a 64-bit significand with an exponent.
module DiyFps {
  import opened Powers
  import opened Bigits
  import opened DigitGeneration

  const TWO_32: int := 0x1_0000_0000
  const TWO_63: int := 0x8000_0000_0000_0000
  const TWO_64: int := 0x1_0000_0000_0000_0000

  // The number that a significand and a binary exponent denote.
  ghost function BinaryValue(f: int, e: int): real { f as real * RPow(2, e) }

  lemma BinaryIs(f: int, e: int)
    ensures BinaryValue(f, e) == f as real * RPow(2, e)
  {
  }

  class DiyFp {
    var f: uint64
    var e: int

    constructor (significand: uint64, exponent: int)
      ensures f == significand && e == exponent
    {
      f, e := significand, exponent;
    }

    method Subtract(other: DiyFp)
      requires e == other.e && f >= other.f
      modifies this
      ensures f == old(f) - old(other.f) && e == old(e)
    {
      f := f - other.f;
    }

    // The upper half of the 128-bit product, rounded to nearest.
    method Multiply(other: DiyFp)
      modifies this
      ensures f == HalfUp(old(f) * old(other.f), TWO_64)
      ensures e == old(e) + old(other.e) + 64
    {
      var a, b := f / TWO_32, f % TWO_32;
      var c, d := other.f / TWO_32, other.f % TWO_32;
      ProductParts(a, b, c, d, f, other.f);
      var ac: uint64 := a * c;
      var bc: uint64 := b * c;
      var ad: uint64 := a * d;
      var bd: uint64 := b * d;
      var tmp: uint64 := bd / TWO_32 + ad % TWO_32 + bc % TWO_32 + 0x8000_0000;
      e := e + other.e + 64;
      f := ac + ad / TWO_32 + bc / TWO_32 + tmp / TWO_32;
    }

    // Shifts until the most significant bit is set.
    method Normalize() returns (ghost shift: nat)
      requires f != 0
      modifies this
      ensures TWO_63 <= f && shift < 64
      ensures f == old(f) * Pow(2, shift) && e == old(e) - shift
    {
      hide Pow;
      var significand, exponent := f, e;
      shift := 0;
      PowZero(2);
      ghost var start, startE := f, e;
      while significand / 0x40_0000_0000_0000 == 0
        invariant 0 < significand < TWO_64 && significand == start * Pow(2, shift) && exponent == startE - shift
        decreases TWO_64 - significand
      {
        ShiftMore(start, shift, 10);
        TwoTo10();
        significand := significand * 1024;
        exponent := exponent - 10;
        shift := shift + 10;
      }
      while significand < TWO_63
        invariant 0 < significand < TWO_64 && significand == start * Pow(2, shift) && exponent == startE - shift
        decreases TWO_64 - significand
      {
        ShiftMore(start, shift, 1);
        PowStep(2, 0);
        significand := significand * 2;
        exponent := exponent - 1;
        shift := shift + 1;
      }
      ShiftBelow64(start, shift);
      f := significand;
      e := exponent;
    }
  }

  lemma ShiftMore(f: nat, shift: nat, k: nat)
    ensures f * Pow(2, shift + k) == f * Pow(2, shift) * Pow(2, k)
  {
    hide Pow;
    PowAdd(2, shift, k);
    var p, q := Pow(2, shift), Pow(2, k);
    assert f * (p * q) == f * p * q;
  }

  lemma TwoTo8()
    ensures Pow(2, 8) == 256
  {
  }

  lemma TwoTo64()
    ensures Pow(2, 32) == TWO_32 && Pow(2, 63) == TWO_63 && Pow(2, 64) == TWO_64
  {
    hide Pow;
    TwoTo8();
    PowAdd(2, 8, 8);
    PowAdd(2, 16, 16);
    PowAdd(2, 32, 31);
    PowAdd(2, 31, 1);
    PowAdd(2, 63, 1);
    TwoTo1();
  }

  lemma ShiftBelow64(f: nat, shift: nat)
    requires 0 < f && f * Pow(2, shift) < TWO_64
    ensures shift < 64
  {
    hide Pow;
    TwoTo64();
    PowPos(2, shift);
    MulLe(1, f, Pow(2, shift));
    if 64 <= shift { PowMono(2, 64, shift); }
  }

  // The four partial products and the rounded upper half of their sum.
  lemma ProductParts(a: nat, b: nat, c: nat, d: nat, x: uint64, y: uint64)
    requires a == x / TWO_32 && b == x % TWO_32 && c == y / TWO_32 && d == y % TWO_32
    ensures 0 <= a * c < TWO_64 && 0 <= b * c < TWO_64 && 0 <= a * d < TWO_64 && 0 <= b * d < TWO_64
    ensures var tmp := b * d / TWO_32 + a * d % TWO_32 + b * c % TWO_32 + 0x8000_0000;
      a * c + a * d / TWO_32 + b * c / TWO_32 + tmp / TWO_32 == HalfUp(x * y, TWO_64)
    ensures HalfUp(x * y, TWO_64) < TWO_64
  {
    BelowProduct(a, c, TWO_32, TWO_32);
    BelowProduct(b, c, TWO_32, TWO_32);
    BelowProduct(a, d, TWO_32, TWO_32);
    BelowProduct(b, d, TWO_32, TWO_32);
    BelowProduct(x, y, TWO_64, TWO_64);
    assert x * y == a * c * TWO_64 + (a * d + b * c) * TWO_32 + b * d by {
      assert x == a * TWO_32 + b && y == c * TWO_32 + d;
      PartsProduct(a, b, c, d);
    }
    UpperHalf(x * y, a * c, a * d, b * c, b * d);
  }

  lemma BelowProduct(a: nat, b: nat, m: nat, n: nat)
    requires a < m && b < n
    ensures 0 <= a * b <= (m - 1) * (n - 1)
  {
    MulLe(a, m - 1, b);
    MulLe(b, n - 1, m - 1);
    MulLe(0, a, b);
  }

  lemma PartsProduct(a: int, b: int, c: int, d: int)
    ensures (a * TWO_32 + b) * (c * TWO_32 + d) == a * c * TWO_64 + (a * d + b * c) * TWO_32 + b * d
  {
  }

  lemma UpperHalf(p: nat, ac: nat, ad: nat, bc: nat, bd: nat)
    requires p == ac * TWO_64 + (ad + bc) * TWO_32 + bd && p <= (TWO_64 - 1) * (TWO_64 - 1)
    ensures var tmp := bd / TWO_32 + ad % TWO_32 + bc % TWO_32 + 0x8000_0000;
      ac + ad / TWO_32 + bc / TWO_32 + tmp / TWO_32 == HalfUp(p, TWO_64) < TWO_64
  {
    var tmp := bd / TWO_32 + ad % TWO_32 + bc % TWO_32 + 0x8000_0000;
    var q := ac + ad / TWO_32 + bc / TWO_32 + tmp / TWO_32;
    var r := 2 * (tmp % TWO_32 * TWO_32 + bd % TWO_32);
    assert 2 * p + TWO_64 == q * (2 * TWO_64) + r;
    DivUnique(2 * p + TWO_64, 2 * TWO_64, q, r);
  }
}
