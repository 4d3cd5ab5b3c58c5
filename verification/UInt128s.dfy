// external/double-conversion/fixed-dtoa.cc: an unsigned integer of 128 bits in
// two halves.
module UInt128s {
  import opened Powers
  import opened DiyFps

  class UInt128 {
    var highBits: uint64
    var lowBits: uint64

    ghost function Value(): (v: nat)
      reads this
    {
      highBits * TWO_64 + lowBits
    }

    constructor (high: uint64, low: uint64)
      ensures Value() == high * TWO_64 + low
    {
      highBits, lowBits := high, low;
    }

    // Four products of 32 bits, the carry in the accumulator.
    method Multiply(multiplicand: uint32)
      requires 0 <= Value() * multiplicand < TWO_64 * TWO_64
      modifies this
      ensures Value() == old(Value()) * multiplicand
    {
      ghost var a0, a1, a2, a3 := Carries(highBits, lowBits, multiplicand);
      var accumulator: uint64 := lowBits % TWO_32 * multiplicand;
      var part: uint32 := accumulator % TWO_32;
      accumulator := accumulator / TWO_32;
      accumulator := accumulator + lowBits / TWO_32 * multiplicand;
      lowBits := accumulator * TWO_32 % TWO_64 + part;
      accumulator := accumulator / TWO_32;
      accumulator := accumulator + highBits % TWO_32 * multiplicand;
      part := accumulator % TWO_32;
      accumulator := accumulator / TWO_32;
      accumulator := accumulator + highBits / TWO_32 * multiplicand;
      highBits := accumulator * TWO_32 % TWO_64 + part;
    }

    // To the right by shiftAmount, or to the left when it is negative; bits that
    // leave on the left are lost.
    method Shift(shiftAmount: int)
      requires -64 <= shiftAmount <= 64
      modifies this
      ensures shiftAmount >= 0 ==> 0 < Pow(2, shiftAmount) && Value() == old(Value()) / Pow(2, shiftAmount)
      ensures shiftAmount < 0 ==>
        0 <= old(Value()) * Pow(2, 0 - shiftAmount) && Value() == old(Value()) * Pow(2, 0 - shiftAmount) % (TWO_64 * TWO_64)
    {
      hide Pow;
      ghost var high, low := highBits, lowBits;
      if shiftAmount == 0 {
        PowZero(2);
        return;
      } else if shiftAmount == -64 {
        highBits := lowBits;
        lowBits := 0;
        WholeLeft(high, low);
      } else if shiftAmount == 64 {
        lowBits := highBits;
        highBits := 0;
        WholeRight(high, low);
      } else if shiftAmount <= 0 {
        ShiftLeft(-shiftAmount);
      } else {
        ShiftRight(shiftAmount);
      }
    }

    method ShiftLeft(amount: nat)
      requires 0 < amount < 64
      modifies this
      ensures 0 <= old(Value()) * Pow(2, amount) && Value() == old(Value()) * Pow(2, amount) % (TWO_64 * TWO_64)
    {
      hide Pow;
      ShiftedLeft(highBits, lowBits, amount);
      highBits := highBits * Pow(2, amount) % TWO_64;
      highBits := highBits + lowBits / Pow(2, 64 - amount);
      lowBits := lowBits * Pow(2, amount) % TWO_64;
    }

    method ShiftRight(amount: nat)
      requires 0 < amount < 64
      modifies this
      ensures 0 < Pow(2, amount) && Value() == old(Value()) / Pow(2, amount)
    {
      hide Pow;
      ghost var a, b, c := ShiftedRight(highBits, lowBits, amount);
      lowBits := lowBits / Pow(2, amount);
      lowBits := lowBits + highBits * Pow(2, 64 - amount) % TWO_64;
      highBits := highBits / Pow(2, amount);
    }

    // Keeps the remainder of a division by a power of two; the quotient fits into
    // an int.
    method DivModPowerOf2(power: nat) returns (result: int)
      requires 0 < power < 128 && Value() < 0x8000_0000 * Pow(2, power)
      modifies this
      ensures 0 < Pow(2, power) && result == old(Value()) / Pow(2, power) && Value() == old(Value()) % Pow(2, power)
    {
      hide Pow;
      ghost var high, low := highBits, lowBits;
      if power >= 64 {
        HighQuotient(high, low, power);
        result := highBits / Pow(2, power - 64);
        highBits := highBits - result * Pow(2, power - 64);
      } else {
        LowQuotient(high, low, power);
        var partLow := lowBits / Pow(2, power);
        var partHigh := highBits * Pow(2, 64 - power) % TWO_64;
        result := partLow + partHigh;
        highBits := 0;
        lowBits := lowBits - partLow * Pow(2, power);
      }
    }

    method IsZero() returns (zero: bool)
      ensures zero <==> Value() == 0
    {
      zero := highBits == 0 && lowBits == 0;
    }

    method BitAt(position: nat) returns (bit: int)
      requires position < 128
      ensures 0 < Pow(2, position) && bit == Value() / Pow(2, position) % 2
    {
      hide Pow;
      PowPos(2, position);
      if position >= 64 {
        HighBit(highBits, lowBits, position);
        PowPos(2, position - 64);
        bit := highBits / Pow(2, position - 64) % 2;
      } else {
        LowBit(highBits, lowBits, position);
        bit := lowBits / Pow(2, position) % 2;
      }
    }
  }

  // ---------- Multiplication ----------

  lemma PartBounds(x: uint64, m: uint32)
    ensures 0 <= x % TWO_32 * m <= (TWO_32 - 1) * (TWO_32 - 1)
    ensures 0 <= x / TWO_32 * m <= (TWO_32 - 1) * (TWO_32 - 1)
  {
    BelowProduct(x % TWO_32, m, TWO_32, TWO_32);
    BelowProduct(x / TWO_32, m, TWO_32, TWO_32);
  }

  // The four partial products.
  lemma FourParts(high: uint64, low: uint64, m: uint32) returns (x0: uint64, x1: uint64, x2: uint64, x3: uint64)
    ensures x0 == low % TWO_32 * m <= (TWO_32 - 1) * (TWO_32 - 1) && x1 == low / TWO_32 * m <= (TWO_32 - 1) * (TWO_32 - 1)
    ensures x2 == high % TWO_32 * m <= (TWO_32 - 1) * (TWO_32 - 1) && x3 == high / TWO_32 * m <= (TWO_32 - 1) * (TWO_32 - 1)
    ensures (high * TWO_64 + low) * m == x0 + x1 * TWO_32 + x2 * TWO_64 + x3 * TWO_32 * TWO_64
  {
    PartBounds(low, m);
    PartBounds(high, m);
    x0, x1, x2, x3 := low % TWO_32 * m, low / TWO_32 * m, high % TWO_32 * m, high / TWO_32 * m;
    FourDigits(low % TWO_32, low / TWO_32, high % TWO_32, high / TWO_32, m, high, low);
  }

  lemma FourDigits(p0: int, p1: int, p2: int, p3: int, m: int, high: int, low: int)
    requires low == p1 * TWO_32 + p0 && high == p3 * TWO_32 + p2
    ensures (high * TWO_64 + low) * m == p0 * m + p1 * m * TWO_32 + p2 * m * TWO_64 + p3 * m * TWO_32 * TWO_64
  {
  }

  // The accumulator after each step.
  lemma Carries(high: uint64, low: uint64, m: uint32) returns (a0: uint64, a1: uint64, a2: uint64, a3: uint64)
    requires 0 <= (high * TWO_64 + low) * m < TWO_64 * TWO_64
    ensures a0 == low % TWO_32 * m && a1 == a0 / TWO_32 + low / TWO_32 * m
    ensures a2 == a1 / TWO_32 + high % TWO_32 * m && a3 == a2 / TWO_32 + high / TWO_32 * m
    ensures a1 * TWO_32 % TWO_64 == a1 % TWO_32 * TWO_32 && a3 * TWO_32 % TWO_64 == a3 % TWO_32 * TWO_32
    ensures (high * TWO_64 + low) * m == (a3 % TWO_32 * TWO_32 + a2 % TWO_32) * TWO_64 + a1 % TWO_32 * TWO_32 + a0 % TWO_32
  {
    var x0, x1, x2, x3 := FourParts(high, low, m);
    a0, a1, a2, a3 := Chain(x0, x1, x2, x3);
  }

  lemma Chain(x0: nat, x1: nat, x2: nat, x3: nat) returns (a0: nat, a1: nat, a2: nat, a3: nat)
    requires x0 <= (TWO_32 - 1) * (TWO_32 - 1) && x1 <= (TWO_32 - 1) * (TWO_32 - 1)
    requires x2 <= (TWO_32 - 1) * (TWO_32 - 1) && x3 <= (TWO_32 - 1) * (TWO_32 - 1)
    requires x0 + x1 * TWO_32 + x2 * TWO_64 + x3 * TWO_32 * TWO_64 < TWO_64 * TWO_64
    ensures a0 == x0 < TWO_64 && a1 == x0 / TWO_32 + x1 < TWO_64
    ensures a2 == a1 / TWO_32 + x2 < TWO_64 && a3 == a2 / TWO_32 + x3 < TWO_64
    ensures a1 * TWO_32 % TWO_64 == a1 % TWO_32 * TWO_32 && a3 * TWO_32 % TWO_64 == a3 % TWO_32 * TWO_32
    ensures x0 + x1 * TWO_32 + x2 * TWO_64 + x3 * TWO_32 * TWO_64
         == (a3 % TWO_32 * TWO_32 + a2 % TWO_32) * TWO_64 + a1 % TWO_32 * TWO_32 + a0 % TWO_32
  {
    a0, a1 := x0, x0 / TWO_32 + x1;
    a2 := a1 / TWO_32 + x2;
    a3 := a2 / TWO_32 + x3;
    CarryChain(x0, x1, x2, x3);
    LowHalf(a1);
    LowHalf(a3);
  }

  lemma LowHalf(a: nat)
    ensures a * TWO_32 % TWO_64 == a % TWO_32 * TWO_32
  {
    DivUnique(a * TWO_32, TWO_64, a / TWO_32, a % TWO_32 * TWO_32);
  }

  lemma CarryChain(x0: int, x1: int, x2: int, x3: int)
    requires 0 <= x0 && 0 <= x1 && 0 <= x2 && 0 <= x3
    requires x0 + x1 * TWO_32 + x2 * TWO_64 + x3 * TWO_32 * TWO_64 < TWO_64 * TWO_64
    ensures var a1 := x0 / TWO_32 + x1; var a2 := a1 / TWO_32 + x2; var a3 := a2 / TWO_32 + x3;
      a3 / TWO_32 == 0
      && x0 + x1 * TWO_32 + x2 * TWO_64 + x3 * TWO_32 * TWO_64
         == (a3 % TWO_32 * TWO_32 + a2 % TWO_32) * TWO_64 + a1 % TWO_32 * TWO_32 + x0 % TWO_32
  {
  }

  lemma WholeLeft(high: uint64, low: uint64)
    ensures 0 <= (high * TWO_64 + low) * Pow(2, 64)
    ensures (high * TWO_64 + low) * Pow(2, 64) % (TWO_64 * TWO_64) == low * TWO_64
  {
    hide Pow;
    TwoTo64();
    DivUnique((high * TWO_64 + low) * TWO_64, TWO_64 * TWO_64, high, low * TWO_64);
  }

  lemma WholeRight(high: uint64, low: uint64)
    ensures 0 < Pow(2, 64) && (high * TWO_64 + low) / Pow(2, 64) == high
  {
    hide Pow;
    TwoTo64();
    DivUnique(high * TWO_64 + low, TWO_64, high, low);
  }

  // ---------- Shifts ----------

  // 2^s and 2^(64-s).
  lemma Split64(s: nat)
    requires s <= 64
    ensures 0 < Pow(2, s) && 0 < Pow(2, 64 - s) && Pow(2, s) * Pow(2, 64 - s) == TWO_64
  {
    hide Pow;
    PowPos(2, s);
    PowPos(2, 64 - s);
    PowAdd(2, s, 64 - s);
    TwoTo64();
  }

  lemma ShiftedLeft(high: uint64, low: uint64, s: nat)
    requires s <= 64
    ensures 0 < Pow(2, s) && 0 < Pow(2, 64 - s) && 0 <= high * Pow(2, s) && 0 <= low * Pow(2, s)
    ensures high * Pow(2, s) % TWO_64 + low / Pow(2, 64 - s) < TWO_64
    ensures 0 <= (high * TWO_64 + low) * Pow(2, s)
    ensures (high * Pow(2, s) % TWO_64 + low / Pow(2, 64 - s)) * TWO_64 + low * Pow(2, s) % TWO_64
         == (high * TWO_64 + low) * Pow(2, s) % (TWO_64 * TWO_64)
  {
    hide Pow;
    Split64(s);
    LeftParts(high, low, Pow(2, s), Pow(2, 64 - s));
  }

  lemma LeftParts(high: nat, low: nat, p: nat, q: nat)
    requires 0 < p && 0 < q && p * q == TWO_64 && low < TWO_64
    ensures 0 <= high * p && 0 <= low * p && 0 <= (high * TWO_64 + low) * p
    ensures high * p % TWO_64 + low / q < TWO_64
    ensures (high * p % TWO_64 + low / q) * TWO_64 + low * p % TWO_64 == (high * TWO_64 + low) * p % (TWO_64 * TWO_64)
  {
    MulLe(0, high, p);
    MulLe(0, low, p);
    var c, d := ShiftRest(high, p, q);
    var a, b := ShiftRest(low, p, q);
    assert low / q == a && low * p % TWO_64 == b && high * p % TWO_64 == d;
    DivLt(low, q, p);
    var v := (high * TWO_64 + low) * p;
    assert v == high * p * TWO_64 + low * p;
    DivUnique(v, TWO_64 * TWO_64, c, (d + a) * TWO_64 + b);
  }

  // x * p as a carry and 64 bits, the low ones of which are zero.
  lemma ShiftRest(x: nat, p: nat, q: nat) returns (carry: nat, rest: nat)
    requires 0 < p && 0 < q && p * q == TWO_64
    ensures carry == x / q && 0 <= x * p && x * p == carry * TWO_64 + rest && rest + p <= TWO_64 && rest == x * p % TWO_64
  {
    DivMod(x, q);
    carry, rest := x / q, x % q * p;
    MulLe(0, x % q, p);
    MulLe(x % q + 1, q, p);
    Regrouped(x, carry, x % q, p, q);
    DivUnique(x * p, TWO_64, carry, rest);
  }

  lemma Regrouped(x: nat, c: nat, r: nat, p: nat, q: nat)
    requires x == c * q + r && p * q == TWO_64
    ensures x * p == c * TWO_64 + r * p && (r + 1) * p == r * p + p
  {
    assert c * q * p == c * (p * q);
  }

  lemma ShiftedRight(high: uint64, low: uint64, s: nat) returns (a: uint64, b: uint64, c: uint64)
    requires s <= 64
    ensures 0 < Pow(2, s) && 0 <= high * Pow(2, 64 - s)
    ensures a == low / Pow(2, s) && b == high * Pow(2, 64 - s) % TWO_64 && c == high / Pow(2, s) && a + b < TWO_64
    ensures c * TWO_64 + (a + b) == (high * TWO_64 + low) / Pow(2, s)
  {
    hide Pow;
    Split64(s);
    a, b, c := RightParts(high, low, Pow(2, s), Pow(2, 64 - s));
  }

  lemma RightParts(high: nat, low: nat, p: nat, q: nat) returns (a: nat, b: nat, c: nat)
    requires 0 < p && 0 < q && p * q == TWO_64 && low < TWO_64
    ensures 0 <= high * q && a == low / p && b == high * q % TWO_64 && c == high / p <= high && a + b < TWO_64
    ensures c * TWO_64 + (a + b) == (high * TWO_64 + low) / p
  {
    c, b := ShiftRest(high, q, p);
    DivLt(low, p, q);
    LowDivision(high, low, p, q);
    DivAtMost(high, p);
    DivLe(low, p, 0);
    a := low / p;
  }

  lemma LowDivision(high: nat, low: nat, p: nat, q: nat)
    requires 0 < p && p * q == TWO_64
    ensures (high * TWO_64 + low) / p == high * q + low / p && (high * TWO_64 + low) % p == low % p
  {
    DivMod(low, p);
    assert high * TWO_64 == high * q * p;
    assert high * TWO_64 + low == (high * q + low / p) * p + low % p;
    DivUnique(high * TWO_64 + low, p, high * q + low / p, low % p);
  }

  // ---------- Division by a power of two ----------

  lemma HighDivision(high: nat, low: nat, r: nat)
    requires 0 < r && low < TWO_64
    ensures 0 < r * TWO_64 && (high * TWO_64 + low) / (r * TWO_64) == high / r
    ensures (high * TWO_64 + low) % (r * TWO_64) == high % r * TWO_64 + low
  {
    DivMod(high, r);
    MulLe(high % r + 1, r, TWO_64);
    assert high * TWO_64 + low == high / r * (r * TWO_64) + (high % r * TWO_64 + low);
    DivUnique(high * TWO_64 + low, r * TWO_64, high / r, high % r * TWO_64 + low);
  }

  lemma HighQuotient(high: uint64, low: uint64, power: nat)
    requires 64 <= power
    ensures 0 < Pow(2, power - 64) && 0 < Pow(2, power)
    ensures (high * TWO_64 + low) / Pow(2, power) == high / Pow(2, power - 64)
    ensures 0 <= high - high / Pow(2, power - 64) * Pow(2, power - 64) == high % Pow(2, power - 64) <= high
    ensures (high * TWO_64 + low) % Pow(2, power) == high % Pow(2, power - 64) * TWO_64 + low
  {
    hide Pow;
    var r := Pow(2, power - 64);
    PowPos(2, power - 64);
    PowAdd(2, power - 64, 64);
    TwoTo64();
    HighDivision(high, low, r);
    DivMod(high, r);
    DivLe(high, r, 0);
    MulLe(0, high / r, r);
  }

  lemma LowQuotient(high: uint64, low: uint64, power: nat)
    requires power < 64 && high * TWO_64 + low < 0x8000_0000 * Pow(2, power)
    ensures 0 < Pow(2, power) && 0 < Pow(2, 64 - power) && 0 <= high * Pow(2, 64 - power)
    ensures low / Pow(2, power) + high * Pow(2, 64 - power) % TWO_64 == (high * TWO_64 + low) / Pow(2, power)
    ensures 0 <= low - low / Pow(2, power) * Pow(2, power) == (high * TWO_64 + low) % Pow(2, power)
    ensures (high * TWO_64 + low) % Pow(2, power) <= low
  {
    hide Pow;
    var p, q := Pow(2, power), Pow(2, 64 - power);
    Split64(power);
    LowDivision(high, low, p, q);
    DivMod(low, p);
    DivLe(low, p, 0);
    MulLe(0, low / p, p);
    MulLe(0, high, q);
    NoWrap(high, low, p, q);
  }

  lemma NoWrap(high: nat, low: nat, p: nat, q: nat)
    requires 0 < p && p * q == TWO_64 && high * TWO_64 + low < 0x8000_0000 * p
    ensures high * q < 0x8000_0000
  {
    assert high * TWO_64 == high * q * p;
    MulCancelLt(high * q, 0x8000_0000, p);
  }

  lemma HighBit(high: uint64, low: uint64, position: nat)
    requires 64 <= position
    ensures 0 < Pow(2, position) && 0 < Pow(2, position - 64)
    ensures (high * TWO_64 + low) / Pow(2, position) % 2 == high / Pow(2, position - 64) % 2
  {
    hide Pow;
    HighQuotient(high, low, position);
  }

  lemma LowBit(high: uint64, low: uint64, position: nat)
    requires position < 64
    ensures 0 < Pow(2, position) && (high * TWO_64 + low) / Pow(2, position) % 2 == low / Pow(2, position) % 2
  {
    hide Pow;
    Split64(position);
    LowDivision(high, low, Pow(2, position), Pow(2, 64 - position));
    PowStep(2, 63 - position);
    EvenShift(high, Pow(2, 63 - position), low / Pow(2, position));
  }

  lemma EvenShift(high: nat, h: nat, b: int)
    ensures (high * (2 * h) + b) % 2 == b % 2
  {
    assert high * (2 * h) == 2 * (high * h);
  }
}
