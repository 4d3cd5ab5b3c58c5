// external/double-conversion/bignum.{h,cc}: fixed-capacity unsigned integers.
module Bignums {
  import opened Powers
  import opened Bigits
  import opened Columns
  import opened Decimal

  function Sign(x: int): int { if x < 0 then -1 else if x > 0 then 1 else 0 }

  function Min(a: nat, b: nat): nat { if a <= b then a else b }

  function Max(a: nat, b: nat): nat { if a <= b then b else a }

  const FIVE_27: uint64 := 0x6765c793fa10079d
  const FIVE_13: uint32 := 1220703125
  const FIVE_1_TO_12: seq<uint32> :=
    [5, 25, 125, 625, 3125, 15625, 78125, 390625, 1953125, 9765625, 48828125, 244140625]

  lemma PowersOfFive()
    ensures FIVE_27 == Pow(5, 27) && FIVE_13 == Pow(5, 13)
    ensures forall k :: 1 <= k <= 12 ==> FIVE_1_TO_12[k - 1] == Pow(5, k)
  {
    assert Pow(5, 3) == 125 && Pow(5, 6) == 15625 && Pow(5, 9) == 1953125;
    assert Pow(5, 1) == 5 && Pow(5, 2) == 25;
    assert Pow(5, 4) == 625 && Pow(5, 5) == 3125;
    assert Pow(5, 7) == 78125 && Pow(5, 8) == 390625;
    assert Pow(5, 10) == 9765625 && Pow(5, 11) == 48828125 && Pow(5, 12) == 244140625;
    assert Pow(5, 13) == 1220703125;
    PowAdd(5, 13, 13);
    assert Pow(5, 27) == 5 * Pow(5, 26);
  }

  class Bignum {
    const bigits: array<Bigit>
    var used: nat
    var exponent: nat

    ghost predicate Shaped()
      reads this
    {
      bigits.Length == CAPACITY && used <= CAPACITY && exponent < 0x8000
    }

    ghost predicate Clamped()
      reads this, bigits
      requires Shaped()
    {
      && (used == 0 ==> exponent == 0)
      && (used > 0 ==> bigits[used - 1] != 0)
    }

    ghost predicate Valid()
      reads this, bigits
    {
      Shaped() && Clamped()
    }

    ghost function Mantissa(): nat
      reads this, bigits
      requires Shaped()
    {
      ValBound(bigits[..used]);
      Val(bigits[..used])
    }

    ghost function Value(): nat
      reads this, bigits
      requires Shaped()
    {
      MulLe(0, Mantissa(), PB(exponent));
      Mantissa() * PB(exponent)
    }

    ghost predicate Holds(v: nat)
      reads this, bigits
    {
      Valid() && Value() == v
    }

    ghost predicate Apart(other: Bignum)
    {
      this != other && bigits != other.bigits
    }

    function BigitLength(): nat
      reads this
    {
      used + exponent
    }

    constructor ()
      ensures Valid() && fresh(bigits) && Value() == 0
    {
      bigits := new Bigit[CAPACITY](_ => 0);
      used, exponent := 0, 0;
    }

    method Zero()
      requires Shaped()
      modifies this
      ensures Valid() && Value() == 0 && used == 0
    {
      used, exponent := 0, 0;
    }

    // ---------- Length, bigits and value ----------

    lemma ValuePositive()
      requires Valid()
      ensures 0 <= Mantissa() && 0 <= Value() && (used == 0 <==> Value() == 0)
      ensures used > 0 ==> PB(used - 1) <= Mantissa()
      ensures Mantissa() < PB(used)
    {
      hide PB;
      ValBound(bigits[..used]);
      if used > 0 {
        ValTop(bigits[..used]);
        MulLe(1, bigits[used - 1], PB(used - 1));
        MulLe(1, Mantissa(), PB(exponent));
      } else {
        assert Mantissa() == 0;
      }
    }

    // A clamped number of BigitLength n lies in [B^(n-1), B^n).
    lemma LengthBounds()
      requires Valid()
      ensures 0 <= Value() < PB(BigitLength())
      ensures used > 0 ==> PB(BigitLength() - 1) <= Value()
    {
      hide PB, Val;
      ValuePositive();
      PBAdd(used, exponent);
      MulLt(Mantissa(), PB(used), PB(exponent));
      if used > 0 {
        PBAdd(used - 1, exponent);
        MulLe(PB(used - 1), Mantissa(), PB(exponent));
      }
    }

    lemma LengthAtMost(n: nat)
      requires Valid() && Value() < PB(n)
      ensures BigitLength() <= n
    {
      hide PB, Val;
      LengthBounds();
      if n < BigitLength() {
        PBMono(n, BigitLength() - 1);
      }
    }

    lemma UsedAtMost(n: nat)
      requires Valid() && Mantissa() < PB(n)
      ensures used <= n
    {
      hide PB, Val;
      ValuePositive();
      if n < used {
        PBMono(n, used - 1);
      }
    }

    // ---------- Assignment ----------

    method Clamp()
      requires Shaped()
      modifies this
      ensures Valid() && Value() == old(Value()) && used <= old(used)
      ensures exponent == if used == 0 then 0 else old(exponent)
      ensures used > 0 ==> Mantissa() == old(Mantissa())
    {
      while used > 0 && bigits[used - 1] == 0
        invariant Shaped() && exponent == old(exponent) && used <= old(used)
        invariant Mantissa() == old(Mantissa())
      {
        assert bigits[..used][..used - 1] == bigits[..used - 1];
        used := used - 1;
      }
      if used == 0 {
        exponent := 0;
      }
    }

    method AssignUInt16(value: int)
      requires Shaped() && 0 <= value < 0x1_0000
      modifies this, bigits
      ensures Valid() && Value() == value && exponent == 0 && used <= 1
    {
      Zero();
      if value > 0 {
        bigits[0] := value;
        used := 1;
        assert bigits[..1] == [value];
        ValSingle(value);
        PBOne();
      }
    }

    method AssignUInt64(value: uint64)
      requires Shaped()
      modifies this, bigits
      ensures Valid() && Value() == value && exponent == 0 && used <= 3
    {
      hide PB, Val;
      Zero();
      var i, rest: int := 0, value;
      PBOne();
      ValEmpty();
      assert bigits[..0] == [];
      while rest > 0
        invariant Shaped() && exponent == 0 && used == i <= 3
        invariant 0 <= rest && (i == 1 ==> rest < 0x10_0000_0000) && (i == 2 ==> rest < 0x100)
        invariant i == 3 ==> rest == 0
        invariant i > 0 && bigits[i - 1] == 0 ==> rest > 0
        invariant value == Val(bigits[..i]) + rest * PB(i)
        decreases 3 - i
      {
        rest := PutColumn(i, rest);
        used := used + 1;
        i := i + 1;
      }
    }

    method AssignBignum(other: Bignum)
      requires Shaped() && other.Valid() && Apart(other)
      modifies this, bigits
      ensures Valid() && Value() == other.Value() && Mantissa() == other.Mantissa()
      ensures used == other.used && exponent == other.exponent
    {
      exponent := other.exponent;
      for i := 0 to other.used
        invariant bigits[..i] == other.bigits[..i] && exponent == other.exponent
      {
        bigits[i] := other.bigits[i];
      }
      used := other.used;
    }

    // ---------- Addition and subtraction ----------

    // Replaces hidden zero bigits by real ones until the exponent is at most
    // the other's.
    method Align(other: Bignum)
      requires Valid()
      requires exponent > other.exponent ==> BigitLength() - other.exponent <= CAPACITY
      modifies this, bigits
      ensures Valid() && Value() == old(Value())
      ensures exponent == if old(exponent) > other.exponent then other.exponent else old(exponent)
      ensures used + exponent == old(used + exponent)
      ensures old(exponent) <= other.exponent ==> bigits[..] == old(bigits[..]) && used == old(used)
    {
      hide PB, Val;
      if exponent > other.exponent {
        ghost var before := bigits[..used];
        var zeros := exponent - other.exponent;
        MoveUp(zeros);
        ValConcat(Zeros(zeros), before);
        ValZeros(zeros);
        PBAdd(zeros, other.exponent);
        Swap3(PB(zeros), Val(before), PB(other.exponent));
      }
    }

    // Makes room for zero bigits below the present ones.
    method MoveUp(zeros: nat)
      requires Shaped() && used + zeros <= CAPACITY && zeros <= exponent
      modifies this, bigits
      ensures Shaped() && used == old(used) + zeros && exponent == old(exponent) - zeros
      ensures bigits[..used] == Zeros(zeros) + old(bigits[..used])
    {
      CopyUp(zeros);
      ghost var before := old(bigits[..used]);
      for i := 0 to zeros
        invariant forall p :: 0 <= p < i ==> bigits[p] == 0
        invariant forall p :: zeros <= p < used + zeros ==> bigits[p] == before[p - zeros]
        modifies bigits
      {
        bigits[i] := 0;
      }
      used := used + zeros;
      exponent := exponent - zeros;
    }

    // Copies from the top, so that nothing is overwritten too early.
    method CopyUp(gap: nat)
      requires Shaped() && used + gap <= CAPACITY
      modifies bigits
      ensures forall p :: gap <= p < used + gap ==> bigits[p] == old(bigits[..used])[p - gap]
    {
      ghost var before := bigits[..used];
      var i := used;
      while i > 0
        invariant 0 <= i <= used
        invariant bigits[..i] == before[..i]
        invariant forall p :: i + gap <= p < used + gap ==> bigits[p] == before[p - gap]
      {
        i := i - 1;
        bigits[i + gap] := bigits[i];
      }
    }

    method AddUInt64(operand: uint64)
      requires Valid() && 1 + BigitLength() <= CAPACITY
      modifies this, bigits
      ensures Valid() && Value() == old(Value()) + operand
      ensures exponent == if operand == 0 then old(exponent) else 0
    {
      if operand == 0 {
        return;
      }
      var other := new Bignum();
      other.AssignUInt64(operand);
      AddBignum(other);
    }

    method AddBignum(other: Bignum)
      requires Valid() && other.Valid() && Apart(other)
      requires 1 + BigitLength() - Min(exponent, other.exponent) <= CAPACITY
      requires 1 + other.BigitLength() - Min(exponent, other.exponent) <= CAPACITY
      modifies this, bigits
      ensures Valid() && Value() == old(Value()) + other.Value()
      ensures exponent == Min(old(exponent), other.exponent)
    {
      hide PB, Val, Extended;
      Align(other);
      ghost var before: seq<Bigit> := bigits[..used];
      var offset := other.exponent - exponent;
      ghost var theirs: seq<Bigit> := other.bigits[..other.used];
      var carry, pos := AddColumns(other, offset);
      carry, pos := AddCarry(carry, pos, other, offset, before);
      assert other.bigits[..other.used] == theirs;
      JoinColumns(before, pos);
      used := Max(pos, used);
      PBAdd(offset, exponent);
      SumScaled(Val(before), PB(offset), Val(theirs), PB(exponent));
    }

    // Columns below pos are new, those from pos on are the old ones.
    lemma JoinColumns(before: seq<Bigit>, pos: nat)
      requires Shaped() && |before| == used && pos <= CAPACITY
      requires forall k :: pos <= k < used ==> bigits[k] == before[k]
      ensures Val(bigits[..Max(pos, used)]) - Val(before) == Val(bigits[..pos]) - Val(Extended(before, pos))
    {
      hide PB, Val;
      if pos <= used {
        ValSplit(before, pos);
        ValSplit(bigits[..used], pos);
        assert bigits[..used][..pos] == bigits[..pos];
        assert bigits[..used][pos..] == before[pos..];
      } else {
        ExtendedBeyond(before, pos);
      }
    }

    // Stores the low bigit of a column and returns what is left of it.
    method PutColumn(pos: nat, sum: nat) returns (carry: nat)
      requires Shaped() && pos < CAPACITY
      modifies bigits
      ensures carry == sum / BASE && bigits[pos] == sum % BASE
      ensures forall k :: 0 <= k < CAPACITY && k != pos ==> bigits[k] == old(bigits[k])
      ensures Val(bigits[..pos + 1]) + carry * PB(pos + 1) == old(Val(bigits[..pos])) + sum * PB(pos)
    {
      hide PB, Val;
      ghost var lo: seq<Bigit> := bigits[..pos];
      bigits[pos] := sum % BASE;
      carry := sum / BASE;
      assert bigits[..pos + 1] == lo + [sum % BASE];
      ValAppend(lo, sum % BASE);
      PBStep(pos);
      Digit(sum, BASE, PB(pos));
    }

    // Zeros the bigits from used up to the given index.
    method PadZeros(end: nat)
      requires Shaped() && end <= CAPACITY
      modifies bigits
      ensures bigits[..Max(used, end)] == Extended(old(bigits[..used]), Max(used, end))
    {
      var j := used;
      while j < end
        invariant used <= j && (j <= end || j == used)
        invariant bigits[..used] == old(bigits[..used])
        invariant forall k :: used <= k < j ==> bigits[k] == 0
      {
        bigits[j] := 0;
        j := j + 1;
      }
    }

    // One column of the sum.
    method AddColumn(other: Bignum, offset: nat, i: nat, pos: nat, carry0: nat, ghost before: seq<Bigit>) returns (carry: nat)
      requires Shaped() && other.Shaped() && Apart(other) && |before| == used
      requires i < other.used && pos == offset + i < CAPACITY && carry0 <= 1
      requires forall k :: pos <= k < used ==> bigits[k] == before[k]
      requires Val(bigits[..pos]) + carry0 * PB(pos) == Val(Extended(before, pos)) + PB(offset) * Val(other.bigits[..i])
      modifies bigits
      ensures carry <= 1 && forall k :: pos < k < CAPACITY ==> bigits[k] == old(bigits[k])
      ensures Val(bigits[..pos + 1]) + carry * PB(pos + 1)
        == Val(Extended(before, pos + 1)) + PB(offset) * Val(other.bigits[..i + 1])
      ensures carry == 0 && other.bigits[i] != 0 ==> bigits[pos] != 0
    {
      hide PB, Val, Extended;
      var my: int := if pos < used then bigits[pos] else 0;
      var theirs: int := other.bigits[i];
      var sum: uint32 := my + theirs + carry0;
      assert other.bigits[..i + 1] == other.bigits[..i] + [theirs];
      ExtendedStep(before, pos, my);
      ValAppend(other.bigits[..i], theirs);
      SumColumn(my, theirs, carry0, pos, offset, i, Val(other.bigits[..i]));
      carry := PutColumn(pos, sum);
    }

    // Adds the other's bigits, without the carry out of the last column.
    method AddColumns(other: Bignum, offset: nat) returns (carry: nat, pos: nat)
      requires Shaped() && other.Valid() && Apart(other)
      requires Max(used, offset + other.used) < CAPACITY
      modifies bigits
      ensures pos == offset + other.used && carry <= 1
      ensures forall k :: pos <= k < used ==> bigits[k] == old(bigits[k])
      ensures Val(bigits[..pos]) + carry * PB(pos)
        == Val(Extended(old(bigits[..used]), pos)) + PB(offset) * Val(other.bigits[..other.used])
      ensures 0 < other.used && used <= pos && carry == 0 && old(Valid()) && other.Valid() ==> bigits[pos - 1] != 0
    {
      hide PB, Val, Extended;
      ghost var before: seq<Bigit> := bigits[..used];
      PadZeros(offset);
      carry, pos := 0, offset;
      var i := 0;
      assert bigits[..pos] == bigits[..Max(used, offset)][..pos] == Extended(before, pos);
      ValEmpty();
      assert other.bigits[..0] == [];
      while i < other.used
        invariant 0 <= i <= other.used && pos == offset + i && carry <= 1
        invariant forall k :: pos <= k < used ==> bigits[k] == before[k]
        invariant Val(bigits[..pos]) + carry * PB(pos)
          == Val(Extended(before, pos)) + PB(offset) * Val(other.bigits[..i])
        invariant 0 < i == other.used && used <= pos && carry == 0 && old(Valid()) ==> bigits[pos - 1] != 0
      {
        carry := AddColumn(other, offset, i, pos, carry, before);
        pos, i := pos + 1, i + 1;
      }
    }

    // Lets the carry ripple upwards.
    method AddCarry(carry0: nat, pos0: nat, other: Bignum, offset: nat, ghost before: seq<Bigit>)
      returns (carry: nat, pos: nat)
      requires Shaped() && |before| == used && carry0 <= 1 && pos0 < CAPACITY && used < CAPACITY
      requires forall k :: pos0 <= k < used ==> bigits[k] == before[k]
      requires used <= pos0 && carry0 == 0 && 0 < pos0 ==> bigits[pos0 - 1] != 0
      requires used > 0 ==> before[used - 1] != 0
      modifies bigits
      ensures carry == 0 && pos0 <= pos <= CAPACITY
      ensures forall k :: pos <= k < used ==> bigits[k] == before[k]
      ensures Val(bigits[..pos]) - Val(Extended(before, pos))
        == old(Val(bigits[..pos0])) + carry0 * PB(pos0) - Val(Extended(before, pos0))
      ensures used <= pos && 0 < pos ==> bigits[pos - 1] != 0
    {
      hide PB, Val, Extended;
      carry, pos := carry0, pos0;
      while carry != 0
        invariant pos0 <= pos <= Max(used, pos0) + 1 && carry <= 1
        invariant pos == Max(used, pos0) + 1 ==> carry == 0
        invariant forall k :: pos <= k < used ==> bigits[k] == before[k]
        invariant Val(bigits[..pos]) + carry * PB(pos) - Val(Extended(before, pos))
          == old(Val(bigits[..pos0])) + carry0 * PB(pos0) - Val(Extended(before, pos0))
        invariant used <= pos && carry == 0 && 0 < pos ==> bigits[pos - 1] != 0
        decreases CAPACITY - pos
      {
        var my: int := if pos < used then bigits[pos] else 0;
        var sum: uint32 := my + carry;
        ExtendedStep(before, pos, my);
        SumColumn(my, 0, carry, pos, pos, 0, 0);
        carry := PutColumn(pos, sum);
        pos := pos + 1;
      }
    }

    // A multiple of the other that is at most this lies within its bigits.
    lemma FactorFits(other: Bignum, factor: nat)
      requires Valid() && other.Valid() && exponent <= other.exponent && 0 < factor
      requires factor * other.Value() <= Value()
      ensures other.exponent - exponent + other.used <= used
      ensures PB(other.exponent - exponent) * (factor * other.Mantissa()) <= Mantissa()
    {
      hide PB, Val;
      var offset := other.exponent - exponent;
      var m := other.Mantissa();
      PBAdd(offset, exponent);
      RemainderScaled(0, PB(offset), factor, m, PB(exponent));
      MulCancelLe(PB(offset) * (factor * m), Mantissa(), PB(exponent));
      other.ValuePositive();
      ValuePositive();
      if other.used > 0 {
        LengthOfMultiple(m, other.used, offset, factor, used);
      }
    }

    // Takes an amount from one bigit; the difference wraps around in 32 bits
    // and its top bit is the borrow.
    method TakeFrom(pos: nat, amount: nat) returns (borrow: nat)
      requires Shaped() && pos < CAPACITY && amount <= BASE
      modifies bigits
      ensures borrow <= 1
      ensures forall k :: 0 <= k < CAPACITY && k != pos ==> bigits[k] == old(bigits[k])
      ensures bigits[..pos] == old(bigits[..pos])
      ensures bigits[pos] - borrow * BASE == old(bigits[pos]) - amount
      ensures Val(bigits[..pos + 1]) - borrow * PB(pos + 1)
        == old(Val(bigits[..pos])) + (old(bigits[pos]) - amount) * PB(pos)
    {
      hide PB, Val;
      ghost var lo: seq<Bigit> := bigits[..pos];
      var my: int := bigits[pos];
      var difference: uint32 := (my - amount) % 0x1_0000_0000;
      bigits[pos] := difference % BASE;
      borrow := difference / 0x8000_0000;
      assert bigits[..pos + 1] == lo + [difference % BASE];
      ValAppend(lo, difference % BASE);
      PBStep(pos);
      BorrowedColumn(difference % BASE, borrow, my - amount, pos);
    }

    // Precondition: this >= other.
    method SubtractBignum(other: Bignum)
      requires Valid() && other.Valid() && Apart(other)
      requires other.Value() <= Value()
      requires BigitLength() - Min(exponent, other.exponent) <= CAPACITY
      modifies this, bigits
      ensures Valid() && Value() == old(Value()) - other.Value()
      ensures exponent <= Min(old(exponent), other.exponent)
    {
      hide PB, Val;
      Align(other);
      FactorFits(other, 1);
      ghost var before: seq<Bigit> := bigits[..used];
      ghost var theirs: seq<Bigit> := other.bigits[..other.used];
      var offset := other.exponent - exponent;
      var borrow, i := SubtractColumns(other, offset);
      ghost var taken := PB(offset) * (1 * Val(theirs));
      assert other.bigits[..other.used] == theirs;
      i := PropagateBorrow(borrow, i, offset, before, taken);
      JoinColumns(before, offset + i);
      PBAdd(offset, exponent);
      RemainderScaled(Val(before), PB(offset), 1, Val(theirs), PB(exponent));
      Clamp();
    }

    method PropagateBorrow(borrow0: nat, i0: nat, offset: nat, ghost before: seq<Bigit>, ghost taken: int)
      returns (i: nat)
      requires Shaped() && |before| == used && offset + i0 <= used && borrow0 <= 1
      requires forall k :: offset + i0 <= k < used ==> bigits[k] == before[k]
      requires Val(bigits[..offset + i0]) - borrow0 * PB(offset + i0) == Val(before[..offset + i0]) - taken
      requires taken <= Val(before)
      modifies bigits
      ensures offset + i <= used
      ensures forall k :: offset + i <= k < used ==> bigits[k] == before[k]
      ensures Val(bigits[..offset + i]) == Val(before[..offset + i]) - taken
    {
      hide PB, Val;
      var borrow := borrow0;
      i := i0;
      while borrow != 0
        invariant offset + i <= used && 0 <= borrow <= 1
        invariant forall k :: offset + i <= k < used ==> bigits[k] == before[k]
        invariant Val(bigits[..offset + i]) - borrow * PB(offset + i) == Val(before[..offset + i]) - taken
        decreases used - i
      {
        BorrowFits(bigits[..offset + i], before, borrow, taken);
        ghost var pos := offset + i;
        assert before[..pos + 1] == before[..pos] + [before[pos]];
        ValAppend(before[..pos], before[pos]);
        TakenColumn(before[pos], borrow, PB(pos));
        borrow := TakeFrom(offset + i, borrow);
        i := i + 1;
      }
    }

    // Subtracts the other's bigits, without the borrow out of the last column.
    method SubtractColumns(other: Bignum, offset: nat) returns (borrow: nat, i: nat)
      requires Shaped() && other.Valid() && Apart(other)
      requires offset + other.used <= used
      modifies bigits
      ensures i == other.used && borrow <= 1
      ensures forall k :: offset + i <= k < used ==> bigits[k] == old(bigits[k])
      ensures Val(bigits[..offset + i]) - borrow * PB(offset + i)
        == Val(old(bigits[..used])[..offset + i]) - PB(offset) * (1 * Val(other.bigits[..other.used]))
    {
      hide PB, Val;
      ghost var before: seq<Bigit> := bigits[..used];
      borrow, i := 0, 0;
      ValEmpty();
      assert other.bigits[..0] == [];
      assert bigits[..offset] == before[..offset];
      while i < other.used
        invariant 0 <= i <= other.used && borrow <= 1
        invariant forall k :: offset + i <= k < used ==> bigits[k] == before[k]
        invariant Val(bigits[..offset + i]) - borrow * PB(offset + i)
          == Val(before[..offset + i]) - PB(offset) * (1 * Val(other.bigits[..i]))
      {
        ghost var pos, v := offset + i, Val(other.bigits[..i]);
        var theirs: int := other.bigits[i];
        assert before[..pos + 1] == before[..pos] + [before[pos]];
        ValAppend(before[..pos], before[pos]);
        assert other.bigits[..i + 1] == other.bigits[..i] + [theirs];
        ValAppend(other.bigits[..i], theirs);
        ProductColumn(1, theirs, v, offset, i);
        TakenColumn(before[pos], theirs + borrow, PB(pos));
        TakenColumn(theirs + borrow, borrow, PB(pos));
        borrow := TakeFrom(offset + i, theirs + borrow);
        i := i + 1;
      }
    }

    // this -= factor * other, one pass over the bigits.
    method SubtractTimes(other: Bignum, factor: nat)
      requires Valid() && other.Valid() && Apart(other)
      requires exponent <= other.exponent && factor < BASE
      requires factor * other.Value() <= Value()
      modifies this, bigits
      ensures Valid() && Value() == old(Value()) - factor * other.Value()
      ensures exponent <= old(exponent)
    {
      hide PB, Val;
      if factor < 3 {
        for i := 0 to factor
          invariant Valid() && exponent <= old(exponent)
          invariant Value() == old(Value()) - i * other.Value()
        {
          MulLe(i + 1, factor, other.Value());
          SubtractBignum(other);
        }
        return;
      }
      SubtractLargeMultiple(other, factor);
    }

    method SubtractLargeMultiple(other: Bignum, factor: nat)
      requires Valid() && other.Valid() && Apart(other)
      requires exponent <= other.exponent && 0 < factor < BASE
      requires factor * other.Value() <= Value()
      modifies this, bigits
      ensures Valid() && Value() == old(Value()) - factor * other.Value()
      ensures exponent <= old(exponent)
    {
      hide PB, Val;
      FactorFits(other, factor);
      ghost var before: seq<Bigit> := bigits[..used];
      ghost var theirs: seq<Bigit> := other.bigits[..other.used];
      var offset := other.exponent - exponent;
      PBAdd(offset, exponent);
      RemainderScaled(Val(before), PB(offset), factor, Val(theirs), PB(exponent));
      var borrow := SubtractProducts(other, offset, factor);
      assert other.bigits[..other.used] == theirs;
      ghost var taken := PB(offset) * (factor * Val(theirs));
      var i := other.used + offset;
      while i < used
        invariant other.used + offset <= i <= used && 0 <= borrow <= BASE
        invariant forall k :: i <= k < used ==> bigits[k] == before[k]
        invariant Val(bigits[..i]) - borrow * PB(i) == Val(before[..i]) - taken
        modifies bigits
      {
        if borrow == 0 {
          JoinColumns(before, i);
          return;
        }
        assert before[..i + 1] == before[..i] + [before[i]];
        ValAppend(before[..i], before[i]);
        TakenColumn(before[i], borrow, PB(i));
        borrow := TakeFrom(i, borrow);
        i := i + 1;
      }
      if borrow != 0 {
        BorrowFits(bigits[..i], before, borrow, taken);
      }
      JoinColumns(before, i);
      Clamp();
    }

    method SubtractProducts(other: Bignum, offset: nat, factor: nat) returns (borrow: nat)
      requires Shaped() && other.Valid() && Apart(other)
      requires offset + other.used <= used && factor < BASE
      modifies bigits
      ensures borrow <= BASE
      ensures forall k :: offset + other.used <= k < used ==> bigits[k] == old(bigits[k])
      ensures Val(bigits[..offset + other.used]) - borrow * PB(offset + other.used)
        == Val(old(bigits[..used])[..offset + other.used]) - PB(offset) * (factor * Val(other.bigits[..other.used]))
    {
      hide PB, Val;
      ghost var before: seq<Bigit> := bigits[..used];
      borrow := 0;
      ValEmpty();
      assert other.bigits[..0] == [];
      assert bigits[..offset] == before[..offset];
      for i := 0 to other.used
        invariant borrow <= factor + 1
        invariant forall k :: offset + i <= k < used ==> bigits[k] == before[k]
        invariant Val(bigits[..offset + i]) - borrow * PB(offset + i)
          == Val(before[..offset + i]) - PB(offset) * (factor * Val(other.bigits[..i]))
      {
        ghost var pos, v := offset + i, Val(other.bigits[..i]);
        var theirs: int := other.bigits[i];
        assert before[..pos + 1] == before[..pos] + [before[pos]];
        ValAppend(before[..pos], before[pos]);
        assert other.bigits[..i + 1] == other.bigits[..i] + [theirs];
        ValAppend(other.bigits[..i], theirs);
        ProductColumn(factor, theirs, v, offset, i);
        ProductBound(factor, theirs, borrow);
        var product: uint64 := factor * theirs;
        var remove: uint64 := borrow + product;
        RemoveColumn(before[pos], remove, product, borrow, pos);
        var b := TakeFrom(offset + i, remove % BASE);
        RemovedColumn(remove, b, pos);
        borrow := b + remove / BASE;
      }
    }

    // ---------- Shifts and products ----------

    // The top bigit of a large enough number is not zero.
    lemma TopNotZero()
      requires Shaped() && used > 0 && PB(used - 1) <= Mantissa()
      ensures bigits[used - 1] != 0
    {
      hide PB;
      ValBound(bigits[..used][..used - 1]);
    }

    method BigitsShiftLeft(shift: nat)
      requires Valid() && 0 < used < CAPACITY && shift < BIGIT_SIZE
      modifies this, bigits
      ensures Valid() && exponent == old(exponent) && used <= old(used) + 1
      ensures Mantissa() == old(Mantissa()) * Pow(2, shift)
    {
      hide PB, Val, Pow;
      PowAdd(2, shift, BIGIT_SIZE - shift);
      TwoTo28();
      var up, down := Pow(2, shift), Pow(2, BIGIT_SIZE - shift);
      PowPos(2, shift);
      PowPos(2, BIGIT_SIZE - shift);
      ValuePositive();
      MulLe(1, up, Mantissa());
      var carry := ShiftBigits(up, down);
      AppendCarry(carry, old(Mantissa()) * up);
    }

    method ShiftBigits(up: nat, down: nat) returns (carry: uint32)
      requires Shaped() && up * down == BASE && 0 < down && 0 < up
      modifies bigits
      ensures carry < up
      ensures Val(bigits[..used]) + carry * PB(used) == old(Val(bigits[..used])) * up
    {
      hide PB, Val;
      ghost var before: seq<Bigit> := bigits[..used];
      carry := 0;
      ValEmpty();
      assert before[..0] == [];
      for i := 0 to used
        invariant 0 <= carry < up
        invariant forall k :: i <= k < used ==> bigits[k] == before[k]
        invariant Val(bigits[..i]) + carry * PB(i) == Val(before[..i]) * up
      {
        var my: int := bigits[i];
        ShiftColumn(my, up, down, carry);
        var newCarry: uint32 := my / down;
        var shifted: uint32 := my * up % 0x1_0000_0000;
        assert before[..i + 1] == before[..i] + [my];
        ValAppend(before[..i], my);
        FactorColumn(Val(before[..i]), my, carry, up, PB(i));
        var c := PutColumn(i, (shifted + carry) % BASE);
        PBStep(i);
        ColumnFromParts(my * up + carry, (shifted + carry) % BASE, newCarry, PB(i));
        carry := newCarry;
      }
      assert before[..used] == before;
    }

    // this *= 2^shift.
    method ShiftLeft(shift: nat)
      requires Valid() && (used > 0 ==> used < CAPACITY && exponent + shift / BIGIT_SIZE < 0x8000)
      modifies this, bigits
      ensures Valid() && Value() == old(Value()) * Pow(2, shift)
      ensures Mantissa() == old(Mantissa()) * Pow(2, shift % BIGIT_SIZE)
      ensures exponent == if used == 0 then 0 else old(exponent) + shift / BIGIT_SIZE
      ensures used <= old(used) + 1 && (used == 0 <==> old(used == 0))
    {
      hide PB, Val, Pow;
      ValuePositive();
      if used == 0 {
        return;
      }
      var bigitShift := shift / BIGIT_SIZE;
      exponent := exponent + bigitShift;
      BigitsShiftLeft(shift % BIGIT_SIZE);
      PBAdd(old(exponent), bigitShift);
      ShiftSplit(shift);
      ValuePositive();
      MulPairs(old(Mantissa()), Pow(2, shift % BIGIT_SIZE), PB(old(exponent)), PB(bigitShift));
      PowPos(2, shift % BIGIT_SIZE);
      MulLe(1, old(Mantissa()), Pow(2, shift % BIGIT_SIZE));
    }

    method MultiplyByUInt32(factor: uint32)
      requires Valid() && Mantissa() * factor < PB(CAPACITY)
      modifies this, bigits
      ensures Valid() && Mantissa() == old(Mantissa()) * factor && Value() == old(Value()) * factor
      ensures exponent == if used == 0 then 0 else old(exponent)
      ensures used == 0 <==> old(used) == 0 || factor == 0
    {
      hide PB, Val;
      ValuePositive();
      MulSwap(Mantissa(), factor, PB(exponent));
      if factor == 1 {
        return;
      }
      if factor == 0 {
        Zero();
        ValuePositive();
        return;
      }
      if used == 0 {
        return;
      }
      ghost var before: seq<Bigit> := bigits[..used];
      MulLe(1, factor, Mantissa());
      var carry := 0;
      ValEmpty();
      assert before[..0] == [];
      for i := 0 to used
        invariant 0 <= carry < 0x1_0000_0000 && used == |before| && Shaped() && exponent == old(exponent)
        invariant forall k :: i <= k < used ==> bigits[k] == before[k]
        invariant Val(bigits[..i]) + carry * PB(i) == Val(before[..i]) * factor
      {
        var my: int := bigits[i];
        MulLe(0, my, factor);
        MulLe(my, BASE - 1, factor);
        var product: uint64 := factor * my + carry;
        assert before[..i + 1] == before[..i] + [my];
        ValAppend(before[..i], my);
        FactorColumn(Val(before[..i]), my, carry, factor, PB(i));
        carry := PutColumn(i, product);
      }
      assert before[..used] == before;
      AppendCarry(carry, old(Mantissa()) * factor);
    }

    method Times10()
      requires Valid() && Value() * 10 < PB(CAPACITY)
      modifies this, bigits
      ensures Valid() && Value() == old(Value()) * 10
    {
      hide PB, Val;
      MulLe(1, PB(exponent), Mantissa());
      MultiplyByUInt32(10);
    }

    // The carry is kept as three terms; their sum never exceeds the factor.
    method MultiplyByUInt64(factor: uint64)
      requires Valid() && Mantissa() * factor < PB(CAPACITY)
      modifies this, bigits
      ensures Valid() && Mantissa() == old(Mantissa()) * factor && Value() == old(Value()) * factor
      ensures exponent == if used == 0 then 0 else old(exponent)
      ensures used == 0 <==> old(used) == 0 || factor == 0
    {
      hide PB, Val;
      ValuePositive();
      MulSwap(Mantissa(), factor, PB(exponent));
      if factor == 1 {
        return;
      }
      if factor == 0 {
        Zero();
        ValuePositive();
        return;
      }
      if used == 0 {
        return;
      }
      ghost var before: seq<Bigit> := bigits[..used];
      MulLe(1, factor, Mantissa());
      var carry := MultiplyBigits(factor);
      assert before[..used] == before;
      AppendCarry(carry, old(Mantissa()) * factor);
    }

    method MultiplyBigits(factor: uint64) returns (carry: uint64)
      requires Shaped()
      modifies bigits
      ensures Val(bigits[..used]) + carry * PB(used) == old(Val(bigits[..used])) * factor
    {
      hide PB, Val;
      ghost var before: seq<Bigit> := bigits[..used];
      carry := 0;
      var low, high := factor % 0x1_0000_0000, factor / 0x1_0000_0000;
      ValEmpty();
      assert before[..0] == [];
      for i := 0 to used
        invariant 0 <= carry <= factor
        invariant forall k :: i <= k < used ==> bigits[k] == before[k]
        invariant Val(bigits[..i]) + carry * PB(i) == Val(before[..i]) * factor
      {
        var my: int := bigits[i];
        ThreeTermCarry(factor, my, carry);
        var productLow: uint64 := low * my;
        var productHigh: uint64 := high * my;
        var tmp: uint64 := carry % BASE + productLow;
        assert before[..i + 1] == before[..i] + [my];
        ValAppend(before[..i], my);
        FactorColumn(Val(before[..i]), my, carry, factor, PB(i));
        var c := PutColumn(i, tmp % BASE);
        PBStep(i);
        ColumnFromParts(my * factor + carry, tmp % BASE, carry / BASE + tmp / BASE + productHigh * 16, PB(i));
        carry := carry / BASE + tmp / BASE + productHigh * 16;
      }
      assert before[..used] == before;
    }

    // Appends the bigits of a carry.
    method AppendCarry(carry0: nat, ghost total: int)
      requires Shaped() && 0 < used
      requires Mantissa() + carry0 * PB(used) == total && PB(used - 1) <= total
      requires total < PB(CAPACITY) || (carry0 < BASE && used < CAPACITY)
      modifies this, bigits
      ensures Valid() && exponent == old(exponent) && used >= old(used)
      ensures Mantissa() == total
      ensures carry0 < BASE ==> used <= old(used) + 1
    {
      hide PB, Val;
      var carry := carry0;
      while carry != 0
        invariant Shaped() && exponent == old(exponent) && 0 <= carry <= carry0
        invariant old(used) <= used
        invariant carry0 < BASE && used > old(used) ==> used == old(used) + 1 && carry == 0
        invariant Mantissa() + carry * PB(used) == total && PB(used - 1) <= total
        decreases carry
      {
        if used == CAPACITY {
          ValBound(bigits[..used]);
          MulLe(1, carry, PB(used));
        }
        ValBound(bigits[..used]);
        MulLe(1, carry, PB(used));
        carry := PutColumn(used, carry);
        used := used + 1;
      }
      TopNotZero();
    }

    // ---------- Comparison ----------

    lemma BigitAt(index: nat)
      requires Valid()
      ensures BigitOf(Value(), index) ==
        if exponent <= index < BigitLength() then bigits[index - exponent] else 0
    {
      hide PB, Val;
      var m := Mantissa();
      if index < exponent {
        PBAdd(exponent - index - 1, index + 1);
        PBStep(index);
        var k := m * PB(exponent - index - 1);
        Regroup(m, PB(exponent - index - 1), BASE, PB(index));
        DivUnique(Value(), PB(index), k * BASE, 0);
        DivUnique(k * BASE, BASE, k, 0);
      } else {
        LengthBounds();
        if index < BigitLength() {
          var j := index - exponent;
          PBAdd(j, exponent);
          ValBigitAt(bigits[..used], j);
          DivMod(m, PB(j));
          ScaledQuotient(m, PB(j), PB(exponent));
        } else {
          PBMono(BigitLength(), index);
          DivUnique(Value(), PB(index), 0, Value());
        }
      }
    }

    method BigitOrZero(index: nat) returns (r: Bigit)
      requires Valid()
      ensures r == BigitOf(Value(), index)
    {
      BigitAt(index);
      if index >= BigitLength() {
        return 0;
      }
      if index < exponent {
        return 0;
      }
      return bigits[index - exponent];
    }

    static method Compare(a: Bignum, b: Bignum) returns (r: int)
      requires a.Valid() && b.Valid()
      ensures r == Sign(a.Value() - b.Value())
    {
      hide PB, Val, BigitOf;
      a.LengthBounds();
      b.LengthBounds();
      var la, lb := a.BigitLength(), b.BigitLength();
      if la < lb {
        PBMono(la, lb - 1);
        return -1;
      }
      if la > lb {
        PBMono(lb, la - 1);
        return 1;
      }
      var lowest := if a.exponent <= b.exponent then a.exponent else b.exponent;
      var i := la;
      DivUnique(a.Value(), PB(la), 0, a.Value());
      DivUnique(b.Value(), PB(la), 0, b.Value());
      while i > lowest
        invariant lowest <= i <= la
        invariant a.Value() / PB(i) == b.Value() / PB(i)
        decreases i
      {
        i := i - 1;
        var x := a.BigitOrZero(i);
        var y := b.BigitOrZero(i);
        QuotientStep(a.Value(), i);
        QuotientStep(b.Value(), i);
        if x < y {
          QuotientOrder(a.Value(), b.Value(), i);
          return -1;
        }
        if x > y {
          QuotientOrder(b.Value(), a.Value(), i);
          return 1;
        }
      }
      a.MultipleOf(lowest);
      b.MultipleOf(lowest);
      return 0;
    }

    // Compares a + b with c without forming the sum.
    static method PlusCompare(a: Bignum, b: Bignum, c: Bignum) returns (r: int)
      requires a.Valid() && b.Valid() && c.Valid()
      ensures r == Sign(a.Value() + b.Value() - c.Value())
      decreases a.BigitLength() < b.BigitLength()
    {
      hide PB, Val, QuotientGap, BigitOf;
      if a.BigitLength() < b.BigitLength() {
        r := PlusCompare(b, a, c);
        return;
      }
      a.LengthBounds();
      b.LengthBounds();
      c.LengthBounds();
      var la, lc := a.BigitLength(), c.BigitLength();
      PBMono(b.BigitLength(), la);
      PBStep(la);
      if la + 1 < lc {
        PBMono(la + 1, lc - 1);
        return -1;
      }
      if la > lc {
        PBMono(lc, la - 1);
        return 1;
      }
      if a.exponent >= b.BigitLength() && la < lc {
        a.MultipleOf(a.exponent);
        PBMono(b.BigitLength(), a.exponent);
        NoCarryOut(a.Value(), b.Value(), a.exponent, la);
        PBMono(la, lc - 1);
        return -1;
      }
      PBMono(la, lc);
      r := PlusCompareBigits(a, b, c);
    }

    // From the top bigit of c down; only one unit of difference is kept.
    static method PlusCompareBigits(a: Bignum, b: Bignum, c: Bignum) returns (r: int)
      requires a.Valid() && b.Valid() && c.Valid()
      requires a.Value() < PB(c.BigitLength()) && b.Value() < PB(c.BigitLength())
      ensures r == Sign(a.Value() + b.Value() - c.Value())
    {
      hide PB, Val, QuotientGap, BigitOf;
      c.LengthBounds();
      var lc := c.BigitLength();
      var lowest := Min(Min(a.exponent, b.exponent), c.exponent);
      ghost var x, y, z := a.Value(), b.Value(), c.Value();
      var borrow := 0;
      var i := lc;
      QuotientGapAtTop(x, y, z, lc);
      while i > lowest
        invariant lowest <= i <= lc
        invariant borrow == BASE * QuotientGap(x, y, z, i)
        invariant borrow == 0 || borrow == BASE
        decreases i
      {
        i := i - 1;
        var p: int := a.BigitOrZero(i);
        var q: int := b.BigitOrZero(i);
        var s: int := c.BigitOrZero(i);
        QuotientGapStep(x, y, z, i);
        var sum: uint32 := p + q;
        if sum > s + borrow {
          return 1;
        } else {
          borrow := s + borrow - sum;
          if borrow > 1 {
            return -1;
          }
          borrow := borrow * BASE;
        }
      }
      a.MultipleOf(lowest);
      b.MultipleOf(lowest);
      c.MultipleOf(lowest);
      QuotientGapAtBottom(x, y, z, lowest);
      if borrow == 0 {
        return 0;
      }
      return -1;
    }

    // ---------- Decimal strings ----------

    // 10^1000 fits, as the header promises.
    method AssignDecimalString(value: seq<char>)
      requires Shaped() && IsDigits(value) && |value| <= 1000
      modifies this, bigits
      ensures Valid() && Value() == DecVal(value)
      ensures BigitLength() <= CAPACITY - 2
    {
      hide PB, Val, Pow, DecVal;
      Zero();
      var length, pos := |value|, 0;
      assert value[..0] == [];
      DecEmpty();
      while length >= 19
        invariant pos + length == |value| && 0 <= pos <= |value|
        invariant Valid() && Value() == DecVal(value[..pos])
      {
        AppendDigits(value, pos, 19);
        pos := pos + 19;
        length := length - 19;
      }
      AppendDigits(value, pos, length);
      assert value[..pos + length] == value;
      Clamp();
      DecBound(value);
      DecimalFits(|value|);
      LengthAtMost(CAPACITY - 2);
    }

    method AppendDigits(value: seq<char>, pos: nat, n: nat)
      requires Valid() && IsDigits(value) && pos + n <= |value| <= 1000 && n <= 19
      requires Value() == DecVal(value[..pos])
      modifies this, bigits
      ensures Valid() && Value() == DecVal(value[..pos + n])
    {
      hide PB, Val, Pow, DecVal;
      var digits := ReadUInt64(value, pos, n);
      assert value[..pos + n] == value[..pos] + value[pos..pos + n];
      DecConcat(value[..pos], value[pos..pos + n]);
      DecBound(value[..pos]);
      DecBound(value[..pos + n]);
      DecimalFits(pos);
      DecimalFits(pos + n);
      LengthAtMost(CAPACITY - 2);
      FivesFit(n);
      PBMono(CAPACITY - 2, CAPACITY - 1);
      MultiplyByPowerOfTen(n);
      LengthAtMost(CAPACITY - 2);
      AddUInt64(digits);
    }

    // The bigits times 5^n are at most the value times 10^n.
    lemma FivesFit(n: nat)
      requires Shaped()
      ensures Mantissa() * Pow(5, n) <= Value() * Pow(10, n)
    {
      hide PB, Val, Pow;
      MulLe(1, PB(exponent), Mantissa());
      MulLe(Mantissa(), Value(), Pow(5, n));
      PowBaseMono(5, 10, n);
      MulLe(Pow(5, n), Pow(10, n), Value());
    }

    // ---------- Square ----------

    // Comba multiplication in place: the bigits are first copied above
    // themselves, then each column overwrites a bigit that is read no more.
    method Square()
      requires Valid() && 2 * used <= CAPACITY && 2 * exponent < 0x8000
      modifies this, bigits
      ensures Valid() && Value() == old(Value()) * old(Value())
      ensures used > 0 ==> Mantissa() == old(Mantissa()) * old(Mantissa()) && exponent == 2 * old(exponent)
      ensures used <= 2 * old(used) && (used == 0 <==> old(used) == 0)
    {
      hide PB, Val, Column, ColumnTotal;
      ghost var s: seq<Bigit> := bigits[..used];
      var productLength := 2 * used;
      ValuePositive();
      for i := 0 to used
        invariant bigits[..used] == s
        invariant forall p :: used <= p < used + i ==> bigits[p] == s[p - used]
        modifies bigits
      {
        bigits[used + i] := bigits[i];
      }
      var accumulator := LowColumns(s);
      accumulator := HighColumns(s, accumulator);
      TotalIsSquare(s);
      ValBound(bigits[..productLength]);
      SquareBound(s);
      NothingLeft(Val(bigits[..productLength]), accumulator, PB(productLength), Val(s) * Val(s));
      PBAdd(exponent, exponent);
      SquareScaled(Val(s), PB(exponent));
      used := productLength;
      exponent := exponent * 2;
      assert Mantissa() == Val(s) * Val(s);
      Clamp();
      ValuePositive();
      if old(used) > 0 { MulLe(1, old(Value()), old(Value())); }
    }

    // The copy of s, from raw bigit low on.
    ghost predicate CopyFrom(s: seq<Bigit>, low: nat)
      reads this, bigits
    {
      Shaped() && 2 * used <= CAPACITY && |s| == used && used <= low &&
      forall p :: low <= p < 2 * used ==> bigits[p] == s[p - used]
    }

    method LowColumns(ghost s: seq<Bigit>) returns (accumulator: uint64)
      requires CopyFrom(s, used)
      modifies bigits
      ensures CopyFrom(s, used) && accumulator <= used * (BASE - 1)
      ensures Val(bigits[..used]) + accumulator * PB(used) == ColumnTotal(s, used, used)
    {
      hide PB, Val, Column, ColumnTotal;
      accumulator := 0;
      ValEmpty();
      assert bigits[..0] == [];
      ColumnTotalStart(s, used);
      for i := 0 to used
        invariant CopyFrom(s, used) && accumulator <= used * (BASE - 1)
        invariant Val(bigits[..i]) + accumulator * PB(i) == ColumnTotal(s, used, i)
      {
        ghost var start := accumulator;
        ColumnStart(s, i);
        accumulator := AddProducts(s, i, i, 0, accumulator);
        ColumnHighPart(s, i, used);
        ColumnTotalStep(s, i, start, accumulator);
        ColumnFits(s, i, used, start, used);
        accumulator := PutColumn(i, accumulator);
      }
    }

    method HighColumns(ghost s: seq<Bigit>, accumulator0: uint64) returns (accumulator: uint64)
      requires CopyFrom(s, used) && accumulator0 <= used * (BASE - 1)
      requires Val(bigits[..used]) + accumulator0 * PB(used) == ColumnTotal(s, used, used)
      modifies bigits
      ensures Val(bigits[..2 * used]) + accumulator * PB(2 * used) == ColumnTotal(s, used, 2 * used)
    {
      hide PB, Val, Column, ColumnTotal;
      accumulator := accumulator0;
      for i := used to 2 * used
        invariant CopyFrom(s, i) && accumulator <= used * (BASE - 1)
        invariant Val(bigits[..i]) + accumulator * PB(i) == ColumnTotal(s, used, i)
      {
        ghost var start := accumulator;
        ColumnLowPart(s, i, i - (used - 1));
        accumulator := AddProducts(s, i, used - 1, i - (used - 1), accumulator);
        ColumnTotalStep(s, i, start, accumulator);
        ColumnFits(s, i, used, start, used);
        accumulator := PutColumn(i, accumulator);
      }
    }

    // Adds the products of column i, from the given pair of indices on. The left
    // index runs out first in the low columns, the right one in the high ones.
    // Only the copy is read, and there only bigits above raw bigit i.
    method AddProducts(ghost s: seq<Bigit>, ghost i: nat, from1: nat, from2: nat, start: uint64)
      returns (accumulator: uint64)
      requires CopyFrom(s, Max(i, used)) && start <= used * (BASE - 1)
      requires from1 < used && from1 + from2 == i && (used <= i ==> i < used + from2) && from2 <= used
      requires from2 == 0 || from1 == used - 1
      requires Column(s, i, from2) == 0
      ensures accumulator == start + Column(s, i, Min(i + 1, used))
    {
      hide Column;
      var index1: int, index2: nat := from1, from2;
      accumulator := start;
      while index1 >= 0 && index2 < used
        invariant -1 <= index1 <= from1 && index1 + index2 == i && from2 <= index2 <= used
        invariant accumulator == start + Column(s, i, index2)
        decreases index1 + 1
      {
        var chunk1: int, chunk2: int := bigits[used + index1], bigits[used + index2];
        ColumnStep(s, i, index2, chunk1, chunk2);
        ColumnFits(s, i, index2 + 1, start, used);
        accumulator := accumulator + chunk1 * chunk2;
        index1, index2 := index1 - 1, index2 + 1;
      }
    }

    // ---------- Powers ----------

    // this *= 10^n, as 5^n and a shift.
    method MultiplyByPowerOfTen(n: nat)
      requires Valid() && (used > 0 ==> exponent + n / BIGIT_SIZE < 0x8000)
      requires Mantissa() * Pow(5, n) < PB(CAPACITY - 1)
      modifies this, bigits
      ensures Valid() && Value() == old(Value()) * Pow(10, n)
      ensures Mantissa() == old(Mantissa()) * Pow(5, n) * Pow(2, n % BIGIT_SIZE)
      ensures exponent == if used == 0 then 0 else old(exponent) + n / BIGIT_SIZE
      ensures used == 0 <==> old(used) == 0
    {
      hide PB, Val, Pow, Partial;
      PowersOfFive();
      PowZero(2);
      PowZero(5);
      PowZero(10);
      if n == 0 {
        return;
      }
      if used == 0 {
        ValuePositive();
        return;
      }
      ghost var m, v, e := Mantissa(), Value(), exponent;
      var remaining := n;
      PartialStart();
      while remaining >= 27
        invariant 0 <= remaining <= n && Partial(m, v, e, n - remaining)
      {
        MultiplyFives(FIVE_27, 27, n, m, v, e, n - remaining);
        remaining := remaining - 27;
      }
      while remaining >= 13
        invariant 0 <= remaining < 27 && remaining <= n && Partial(m, v, e, n - remaining)
      {
        MultiplyFives(FIVE_13, 13, n, m, v, e, n - remaining);
        remaining := remaining - 13;
      }
      if remaining > 0 {
        MultiplyFives(FIVE_1_TO_12[remaining - 1], remaining, n, m, v, e, n - remaining);
      }
      FinishPowerOfTen(n, m, v, e);
    }

    // One block of factors of five: in 64 bits for 27 of them, in 32 otherwise.
    method MultiplyFives(factor: uint64, j: nat, ghost n: nat, ghost m: nat, ghost v: nat, ghost e: nat, ghost k: nat)
      requires Partial(m, v, e, k) && k + j <= n && factor == Pow(5, j)
      requires m * Pow(5, n) < PB(CAPACITY - 1) && (j != 27 ==> factor < 0x1_0000_0000)
      modifies this, bigits
      ensures Partial(m, v, e, k + j)
    {
      hide PB, Val, Pow;
      PartialStep(m, v, n, k, j);
      PowPos(5, j);
      if j == 27 {
        MultiplyByUInt64(factor);
      } else {
        MultiplyByUInt32(factor);
      }
    }

    method FinishPowerOfTen(n: nat, ghost m: nat, ghost v: nat, ghost e: nat)
      requires Partial(m, v, e, n) && e + n / BIGIT_SIZE < 0x8000
      requires m * Pow(5, n) < PB(CAPACITY - 1)
      modifies this, bigits
      ensures Valid() && Value() == v * Pow(10, n) && used > 0
      ensures Mantissa() == m * Pow(5, n) * Pow(2, n % BIGIT_SIZE)
      ensures exponent == e + n / BIGIT_SIZE
    {
      hide PB, Val, Pow;
      UsedAtMost(CAPACITY - 1);
      ShiftLeft(n);
      PowProduct(5, 2, n);
      MulAssoc(v, Pow(5, n), Pow(2, n));
    }

    lemma PartialStart()
      requires Valid() && used > 0
      ensures Partial(Mantissa(), Value(), exponent, 0)
    {
      hide PB, Val;
      PowZero(5);
    }

    // After k of the factors of five.
    ghost predicate Partial(m: nat, v: nat, e: nat, k: nat)
      reads this, bigits
    {
      Valid() && used > 0 && exponent == e && Mantissa() == m * Pow(5, k) && Value() == v * Pow(5, k)
    }

    // this = base^n: square and multiply from the top bit of n, in a 64-bit
    // integer as long as that has room.
    method AssignPowerUInt16(base0: nat, n: nat)
      requires Shaped() && 0 < base0 < 0x1_0000 && PowerFits(base0, n)
      modifies this, bigits
      ensures Valid() && Value() == Pow(base0, n) && used > 0
    {
      hide PB, Val, Pow;
      PowZero(base0);
      if n == 0 {
        AssignUInt16(1);
        ValuePositive();
        return;
      }
      Zero();
      var base, shifts := OddAndTwos(base0);
      var bitSize := CountBits(base);
      BitSizeBounds(base);
      var thisValue, mask, delayed, m := SmallPower(base, n, bitSize);
      ghost var p := n / Pow(2, m + 1);
      AssignUInt64(thisValue);
      SmallCapacity(thisValue, base);
      ValueIsMantissa();
      if delayed {
        MultiplyByUInt32(base);
      }
      ContinuePower(base, n, bitSize, mask, m);
      FinishPower(base0, base, shifts, n, bitSize);
    }

    // The remaining bits of n, one square and at most one product each.
    method ContinuePower(base: nat, n: nat, ghost bitSize: nat, mask0: nat, ghost m0: int)
      requires Valid() && exponent == 0 && 0 < base < 0x1_0000 && 0 < bitSize
      requires base < Pow(2, bitSize) && bitSize * n / BIGIT_SIZE + 2 <= CAPACITY
      requires -1 <= m0 && MaskAt(mask0, m0) && 0 < Pow(2, m0 + 1) && Value() == Pow(base, n / Pow(2, m0 + 1))
      modifies this, bigits
      ensures Valid() && exponent == 0 && used > 0 && Value() == Pow(base, n)
    {
      hide PB, Val, Pow, MaskAt;
      var mask := mask0;
      ghost var m := m0;
      ghost var p := n / Pow(2, m + 1);
      PowPos(base, p);
      ValuePositive();
      MaskFacts(mask, m);
      while mask != 0
        invariant Valid() && exponent == 0 && used > 0
        invariant -1 <= m && MaskAt(mask, m) && (mask == 0 <==> m == -1)
        invariant 0 < Pow(2, m + 1) && p == n / Pow(2, m + 1)
        invariant Value() == Pow(base, p)
        decreases m
      {
        PrefixStep(n, m, mask, base);
        ghost var p' := n / Pow(2, m);
        ValueIsMantissa();
        PowerUsed(base, p, n, bitSize);
        UsedAtMost(bitSize * p / BIGIT_SIZE + 1);
        Square();
        PowerFitsCapacity(base, p', n, bitSize);
        ValueIsMantissa();
        if n / mask % 2 != 0 {
          MultiplyByUInt32(base);
        }
        p, mask, m := p', mask / 2, m - 1;
        MaskFacts(mask, m);
      }
      PowZero(2);
    }

    method FinishPower(ghost base0: nat, base: nat, shifts: nat, n: nat, ghost bitSize: nat)
      requires Valid() && exponent == 0 && used > 0 && 0 < base && 0 < n && 0 < bitSize
      requires base0 == base * Pow(2, shifts) && base0 < 0x1_0000
      requires base < Pow(2, bitSize) && bitSize * n / BIGIT_SIZE + 2 <= CAPACITY
      requires Value() == Pow(base, n)
      modifies this, bigits
      ensures Valid() && Value() == Pow(base0, n) && used > 0
    {
      hide PB, Val, Pow;
      ValueIsMantissa();
      PowerUsed(base, n, n, bitSize);
      UsedAtMost(bitSize * n / BIGIT_SIZE + 1);
      ShiftsFit(base0, base, shifts, n, bitSize);
      PowMul(2, shifts, n);
      ShiftLeft(shifts * n);
      PowProduct(base, Pow(2, shifts), n);
    }

    lemma ValueIsMantissa()
      requires Shaped() && exponent == 0
      ensures Mantissa() == Value()
    {
      hide Val;
      PBOne();
    }

    // ---------- Division ----------

    // The top bigit against the whole value.
    lemma TopBounds()
      requires Valid() && used > 0
      ensures bigits[used - 1] * PB(BigitLength() - 1) <= Value() < (bigits[used - 1] + 1) * PB(BigitLength() - 1)
    {
      hide PB, Val;
      ValTop(bigits[..used]);
      PBAdd(used - 1, exponent);
      var top: int, p, q := bigits[used - 1], PB(used - 1), PB(exponent);
      MulLe(top * p, Mantissa(), q);
      MulLt(Mantissa(), (top + 1) * p, q);
    }

    // Leaves the remainder in this. A divisor whose top bigit is the largest
    // one may leave a rest that is shorter than the divisor; the estimate is
    // then zero and the result still exact.
    method DivideModuloIntBignum(other: Bignum) returns (result: nat)
      requires Valid() && other.Valid() && Apart(other) && other.used > 0
      requires Value() < 0x1_0000 * other.Value()
      requires BigitLength() - Min(exponent, other.exponent) <= CAPACITY
      modifies this, bigits
      ensures Valid() && other.Value() > 0 && exponent <= old(exponent)
      ensures result == old(Value()) / other.Value()
      ensures Value() == old(Value()) % other.Value()
    {
      hide PB, Val;
      ghost var v, w := Value(), other.Value();
      LengthBounds();
      other.LengthBounds();
      other.ValuePositive();
      if BigitLength() < other.BigitLength() {
        PBMono(BigitLength(), other.BigitLength() - 1);
        DivUnique(v, w, 0, v);
        return 0;
      }
      Align(other);
      result := DivideLongPart(other);
      MulLe(0, result, w);
      var quotient := DivideRest(other);
      QuotientSumUnique(v, w, result, quotient, Value());
      result := result + quotient;
    }

    // Estimates the quotient from the top bigits and corrects it.
    method DivideRest(other: Bignum) returns (result: nat)
      requires Valid() && other.Valid() && Apart(other) && 0 < other.used && 0 < used
      requires exponent <= other.exponent && BitsFit(other)
      modifies this, bigits
      ensures Valid() && exponent <= old(exponent)
      ensures old(Value()) == result * other.Value() + Value() && Value() < other.Value()
    {
      hide PB, Val;
      ghost var v, w := Value(), other.Value();
      if other.used == 1 {
        result := DivideBigit(other);
        return;
      }
      var thisBigit: int, otherBigit: int := bigits[used - 1], other.bigits[other.used - 1];
      other.TopBounds();
      TopBounds();
      result := thisBigit / (otherBigit + 1);
      EstimateFits(Value(), w, thisBigit, otherBigit, BigitLength(), other.BigitLength());
      SubtractTimes(other, result);
      if otherBigit * (result + 1) > thisBigit {
        return;
      }
      var order := Compare(other, this);
      while order <= 0
        invariant Valid() && exponent <= old(exponent) && exponent <= other.exponent
        invariant v == result * w + Value() && 0 <= result
        invariant order == Sign(w - Value())
        decreases Value()
      {
        MulOneMore(result, w);
        other.ValuePositive();
        SubtractBignum(other);
        result := result + 1;
        order := Compare(other, this);
      }
    }

    // What the long part of a division leaves: this is no longer than other,
    // and shorter only when other is close to a power of the base.
    ghost predicate BitsFit(other: Bignum)
      reads this, bigits, other, other.bigits
      requires Valid() && other.Valid()
    {
      && BigitLength() <= other.BigitLength()
      && (BigitLength() < other.BigitLength() ==> PB(other.BigitLength()) <= Value() + other.Value())
      && (other.used == 1 ==> BigitLength() == other.BigitLength())
    }

    // Removes the multiple of other by the top bigit.
    method RemoveTopMultiple(other: Bignum) returns (top: int)
      requires Valid() && other.Valid() && Apart(other) && 0 < other.used
      requires Value() < 0x1_0000 * other.Value()
      requires exponent <= other.exponent && other.BigitLength() < BigitLength()
      modifies this, bigits
      ensures Valid() && exponent <= old(exponent)
      ensures 0 < top && old(Value()) == top * other.Value() + Value()
      ensures PB(other.BigitLength()) <= Value() + other.Value()
      ensures LongRest(old(Value()), other.Value(), other.BigitLength())
        == LongRest(Value(), other.Value(), other.BigitLength())
    {
      hide PB, Val, LongRest;
      ghost var v, w, length := Value(), other.Value(), other.BigitLength();
      other.LengthBounds();
      other.ValuePositive();
      TopBounds();
      top := bigits[used - 1];
      OneBigitLonger(v, w, top, BigitLength(), length);
      TopMultiple(v, w, PB(length));
      LongRestStep(v, w, length);
      SubtractTimes(other, top);
    }

    // Removes multiples of other until this is no longer than other.
    method DivideLongPart(other: Bignum) returns (result: nat)
      requires Valid() && other.Valid() && Apart(other) && other.used > 0
      requires Value() < 0x1_0000 * other.Value()
      requires exponent <= other.exponent && other.BigitLength() <= BigitLength()
      modifies this, bigits
      ensures Valid() && exponent <= old(exponent) && 0 < used && BitsFit(other)
      ensures old(Value()) == result * other.Value() + Value() && result < 0x1_0000
      ensures Value() == LongRest(old(Value()), other.Value(), other.BigitLength())
    {
      hide PB, Val, LongRest;
      var length := other.BigitLength();
      other.LengthBounds();
      other.ValuePositive();
      ghost var v, w := Value(), other.Value();
      result := 0;
      while BigitLength() > length
        invariant Valid() && exponent <= old(exponent)
        invariant v == result * w + Value() && result < 0x1_0000
        invariant length <= BigitLength() || PB(length) <= Value() + w
        invariant LongRest(Value(), w, length) == LongRest(v, w, length)
        decreases Value()
      {
        MulLe(0, result, w);
        var top := RemoveTopMultiple(other);
        MulLe(1, top, w);
        QuotientSumFits(v, w, result, top, Value());
        result := result + top;
      }
      LengthBounds();
      ValuePositive();
      PBMono(BigitLength(), length);
      LongRestEnd(Value(), w, length);
      if BigitLength() < length {
        PBMono(BigitLength(), length - 1);
        other.MultipleOf(other.exponent);
        GapOfMultiples(w, length, other.exponent);
      }
    }

    // Division by a single bigit of the same weight.
    method DivideBigit(other: Bignum) returns (quotient: nat)
      requires Valid() && other.Valid() && Apart(other) && other.used == 1 && 0 < used
      requires BigitLength() == other.BigitLength() && exponent <= other.exponent
      modifies this, bigits
      ensures Valid() && exponent <= old(exponent)
      ensures old(Value()) == quotient * other.Value() + Value() && Value() < other.Value()
    {
      hide PB, Val;
      ghost var before: seq<Bigit> := bigits[..used];
      var thisBigit, otherBigit := bigits[used - 1], other.bigits[0];
      quotient := thisBigit / otherBigit;
      DivMod(thisBigit, otherBigit);
      bigits[used - 1] := thisBigit - otherBigit * quotient;
      assert bigits[..used] == before[..used - 1] + [thisBigit % otherBigit];
      ValAppend(before[..used - 1], thisBigit % otherBigit);
      assert before == before[..used - 1] + [thisBigit];
      ValAppend(before[..used - 1], thisBigit);
      ValBound(before[..used - 1]);
      assert other.bigits[..1] == [otherBigit];
      ValSingle(otherBigit);
      PBAdd(used - 1, exponent);
      BigitQuotient(thisBigit, otherBigit, Val(before[..used - 1]), PB(used - 1), PB(exponent));
      Clamp();
    }

    // The value is a multiple of B^i for i up to the exponent.
    lemma MultipleOf(i: nat)
      requires Valid() && i <= exponent
      ensures Value() == Value() / PB(i) * PB(i)
    {
      hide PB, Val;
      PBAdd(exponent - i, i);
      var k := Mantissa() * PB(exponent - i);
      assert Value() == k * PB(i) by {
        Regroup(Mantissa(), PB(exponent - i), 1, PB(i));
      }
      DivUnique(Value(), PB(i), k, 0);
    }
  }

  // ---------- Facts about quotients by powers of the base ----------

  ghost function BigitOf(v: nat, i: nat): int
  {
    v / PB(i) % BASE
  }

  lemma Digit(x: nat, b: nat, p: nat)
    requires 0 < b
    ensures x * p == x % b * p + x / b * (b * p)
  {
    DivMod(x, b);
    var q, r := x / b, x % b;
    assert (q * b + r) * p == r * p + q * (b * p);
  }

  lemma Regroup(a: int, b: int, c: int, d: int)
    ensures a * (b * (c * d)) == a * b * c * d
  {
    assert a * (b * (c * d)) == a * b * (c * d);
  }

  lemma ScaledQuotient(m: nat, p: nat, q: nat)
    requires 0 < p && 0 < q
    ensures 0 < p * q && m * q / (p * q) == m / p
  {
    DivMod(m, p);
    var k, r := m / p, m % p;
    MulLe(0, r, q);
    MulLt(r, p, q);
    assert m * q == k * (p * q) + r * q by {
      assert (k * p + r) * q == k * (p * q) + r * q;
    }
    DivUnique(m * q, p * q, k, r * q);
  }

  lemma QuotientStep(v: nat, i: nat)
    ensures v / PB(i) == v / PB(i + 1) * BASE + BigitOf(v, i)
  {
    hide PB;
    PBStep(i);
    var q := v / PB(i);
    DivMod(v, PB(i));
    DivMod(q, BASE);
    var r := q % BASE * PB(i) + v % PB(i);
    MulLe(0, q % BASE, PB(i));
    MulLe(q % BASE, BASE - 1, PB(i));
    Digit(q, BASE, PB(i));
    DivUnique(v, PB(i + 1), q / BASE, r);
  }

  lemma QuotientOrder(v: nat, w: nat, i: nat)
    requires v / PB(i) < w / PB(i)
    ensures v < w
  {
    hide PB;
    DivMod(v, PB(i));
    DivMod(w, PB(i));
    MulLe(v / PB(i) + 1, w / PB(i), PB(i));
  }

  // Zero bigits below the top of x leave room for a whole y < B^e.
  lemma NoCarryOut(x: nat, y: nat, e: nat, n: nat)
    requires x == x / PB(e) * PB(e) && x < PB(n) && y < PB(e) && e <= n
    ensures x + y < PB(n)
  {
    hide PB;
    PBAdd(n - e, e);
    MulCancelLt(x / PB(e), PB(n - e), PB(e));
    MulLe(x / PB(e) + 1, PB(n - e), PB(e));
  }

  // How far c exceeds a + b once all three are cut at bigit i.
  ghost function QuotientGap(x: nat, y: nat, z: nat, i: nat): int
  {
    z / PB(i) - x / PB(i) - y / PB(i)
  }

  lemma QuotientGapAtTop(x: nat, y: nat, z: nat, n: nat)
    requires x < PB(n) && y < PB(n) && z < PB(n)
    ensures QuotientGap(x, y, z, n) == 0
  {
    hide PB;
    DivUnique(x, PB(n), 0, x);
    DivUnique(y, PB(n), 0, y);
    DivUnique(z, PB(n), 0, z);
  }

  lemma QuotientGapStep(x: nat, y: nat, z: nat, i: nat)
    ensures QuotientGap(x, y, z, i) ==
      BASE * QuotientGap(x, y, z, i + 1) + BigitOf(z, i) - BigitOf(x, i) - BigitOf(y, i)
    ensures QuotientGap(x, y, z, i) < 0 ==> x + y > z
    ensures QuotientGap(x, y, z, i) > 1 ==> x + y < z
  {
    hide PB;
    QuotientStep(x, i);
    QuotientStep(y, i);
    QuotientStep(z, i);
    QuotientSum(x, y, z, i);
  }

  lemma QuotientGapAtBottom(x: nat, y: nat, z: nat, i: nat)
    requires x == x / PB(i) * PB(i) && y == y / PB(i) * PB(i) && z == z / PB(i) * PB(i)
    ensures QuotientGap(x, y, z, i) == 0 ==> x + y == z
    ensures QuotientGap(x, y, z, i) > 0 ==> x + y < z
  {
    hide PB;
    SumOfMultiples(x / PB(i), y / PB(i), z / PB(i), PB(i));
  }

  lemma QuotientSum(x: nat, y: nat, z: nat, i: nat)
    ensures x / PB(i) + y / PB(i) > z / PB(i) ==> x + y > z
    ensures x / PB(i) + y / PB(i) + 2 <= z / PB(i) ==> x + y < z
  {
    hide PB;
    var p := PB(i);
    DivMod(x, p);
    DivMod(y, p);
    DivMod(z, p);
    if x / p + y / p > z / p { MulLe(z / p + 1, x / p + y / p, p); }
    if x / p + y / p + 2 <= z / p { MulLe(x / p + y / p + 2, z / p, p); }
  }

  lemma SumOfMultiples(x: int, y: int, z: int, p: int)
    requires 0 < p
    ensures x + y < z ==> x * p + y * p < z * p
    ensures x + y == z ==> x * p + y * p == z * p
  {
    if x + y < z { MulLt(x + y, z, p); }
  }

  // ---------- One column of schoolbook arithmetic ----------

  lemma ValEmpty()
    ensures Val([]) == 0
  {
  }

  lemma Swap3(a: int, b: int, c: int)
    ensures a * b * c == b * (a * c)
  {
  }

  lemma SumScaled(a: int, p: int, b: int, q: int)
    ensures (a + p * b) * q == a * q + b * (p * q)
  {
    Swap3(p, b, q);
  }

  lemma SumColumn(my: int, o: int, carry: int, pos: nat, offset: nat, i: nat, v: int)
    requires pos == offset + i
    ensures (my + o + carry) * PB(pos) == my * PB(pos) + o * PB(pos) + carry * PB(pos)
    ensures PB(offset) * (v + o * PB(i)) == PB(offset) * v + o * PB(pos)
  {
    hide PB;
    PBAdd(offset, i);
    Distribute(PB(offset), v, o, PB(i));
  }

  lemma BorrowedColumn(digit: int, borrow: int, d: int, pos: nat)
    requires digit - borrow * BASE == d
    ensures digit * PB(pos) - borrow * PB(pos + 1) == d * PB(pos)
  {
    hide PB;
    PBStep(pos);
    var p := PB(pos);
    assert (digit - borrow * BASE) * p == digit * p - borrow * (BASE * p);
  }

  lemma TakenColumn(a: int, b: int, p: int)
    ensures (a - b) * p == a * p - b * p
  {
  }

  lemma ProductColumn(factor: int, o: int, v: int, offset: nat, i: nat)
    ensures PB(offset) * (factor * (v + o * PB(i))) == PB(offset) * (factor * v) + factor * o * PB(offset + i)
  {
    hide PB;
    PBAdd(offset, i);
    var p, q := PB(offset), PB(i);
    assert factor * (v + o * q) == factor * v + factor * o * q;
    Distribute(p, factor * v, factor * o, q);
  }

  lemma RemainderScaled(a: int, p: int, f: int, b: int, q: int)
    ensures (a - p * (f * b)) * q == a * q - f * (b * (p * q))
  {
    assert p * (f * b) * q == f * (b * (p * q));
  }

  lemma LengthOfMultiple(m: nat, length: nat, offset: nat, factor: nat, n: nat)
    requires 0 < length && PB(length - 1) <= m && 0 < factor
    requires PB(offset) * (factor * m) < PB(n)
    ensures offset + length <= n
  {
    hide PB;
    if n < offset + length {
      PBMono(n, offset + length - 1);
      PBAdd(offset, length - 1);
      MulLe(1, factor, m);
      MulLe(PB(length - 1), factor * m, PB(offset));
    }
  }

  // A borrow cannot leave the top of a number that is large enough.
  lemma BorrowFits(s: seq<Bigit>, before: seq<Bigit>, borrow: nat, taken: int)
    requires |s| <= |before| && 0 < borrow && taken <= Val(before)
    requires Val(s) - borrow * PB(|s|) == Val(before[..|s|]) - taken
    ensures |s| < |before|
  {
    hide PB, Val;
    assert before[..|before|] == before;
    ValBound(s);
    MulLe(1, borrow, PB(|s|));
  }

  // A 28-bit product and a borrow leave a borrow of the same size.
  lemma ProductBound(factor: nat, o: Bigit, borrow: nat)
    requires factor < BASE && borrow <= factor + 1
    ensures 0 <= factor * o && borrow + factor * o < 0x1_0000_0000_0000_0000
    ensures (borrow + factor * o) / BASE <= factor
  {
    MulLe(0, factor, o);
    MulLe(o, BASE - 1, factor);
    DivLt(borrow + factor * o, BASE, factor + 1);
  }

  lemma RemoveColumn(my: int, remove: int, product: int, borrow: int, pos: nat)
    requires remove == borrow + product
    ensures (my - remove % BASE) * PB(pos)
      == my * PB(pos) - product * PB(pos) - borrow * PB(pos) + remove / BASE * PB(pos + 1)
  {
    hide PB;
    PBStep(pos);
    DivMod(remove, BASE);
    var p, q := PB(pos), remove / BASE;
    assert (my - (borrow + product - q * BASE)) * p == my * p - product * p - borrow * p + q * (BASE * p);
  }

  lemma RemovedColumn(remove: int, b: int, pos: nat)
    ensures (b + remove / BASE) * PB(pos + 1) == b * PB(pos + 1) + remove / BASE * PB(pos + 1)
  {
  }

  lemma TwoTo28()
    ensures Pow(2, BIGIT_SIZE) == BASE
  {
    PowAdd(2, 14, 14);
    assert Pow(2, 14) == 16384;
  }

  lemma ShiftSplit(shift: nat)
    ensures Pow(2, shift) == Pow(2, shift % BIGIT_SIZE) * PB(shift / BIGIT_SIZE)
  {
    TwoTo28();
    PowMul(2, BIGIT_SIZE, shift / BIGIT_SIZE);
    PowAdd(2, shift % BIGIT_SIZE, BIGIT_SIZE * (shift / BIGIT_SIZE));
  }

  // Shifting a bigit in 32 bits keeps the low part; the high part is the carry.
  lemma ShiftColumn(my: nat, up: nat, down: nat, carry: nat)
    requires up * down == BASE && my < BASE && carry < up && 0 < down
    ensures my * up + carry == (my * up % 0x1_0000_0000 + carry) % BASE + my / down * BASE
    ensures 0 <= my / down < up
    ensures my * up % 0x1_0000_0000 + carry < 0x1_0000_0000
  {
    DivMod(my, down);
    var high, low := my / down, my % down;
    SplitProduct(my, high, low, up, down);
    DivLt(my, down, up);
    MulLe(low, down - 1, up);
    MulLe(0, low, up);
    MulLe(0, high, up);
    assert (down - 1) * up == BASE - up;
    LowBits(my * up, high, low * up, carry);
  }

  lemma SplitProduct(my: nat, high: nat, low: nat, up: nat, down: nat)
    requires my == high * down + low && up * down == BASE
    ensures my * up == high * BASE + low * up
  {
    assert (high * down + low) * up == high * (up * down) + low * up;
  }

  lemma LowBits(x: nat, high: nat, low: nat, carry: nat)
    requires x == high * BASE + low && low + carry < BASE
    ensures (x % 0x1_0000_0000 + carry) % BASE == low + carry
    ensures x % 0x1_0000_0000 + carry < 0x1_0000_0000
  {
    var h := x / 0x1_0000_0000;
    DivUnique(x % 0x1_0000_0000 + carry, BASE, high - 16 * h, low + carry);
  }

  lemma FactorColumn(v: int, my: int, carry: int, up: int, p: int)
    ensures (v + my * p) * up == v * up + (my * up + carry) * p - carry * p
  {
  }

  lemma ColumnFromParts(sum: int, digit: int, carry: int, p: int)
    requires sum == digit + carry * BASE
    ensures sum * p == digit * p + carry * (BASE * p)
  {
  }

  // The carry out of one column of a 64-bit product, split at 32 bits.
  lemma ThreeTermCarry(factor: uint64, my: Bigit, carry: uint64)
    requires carry <= factor
    ensures var low, high := factor % 0x1_0000_0000, factor / 0x1_0000_0000;
      var tmp := carry % BASE + low * my;
      var next := carry / BASE + tmp / BASE + high * my * 16;
      && 0 <= low * my && 0 <= high * my && tmp < 0x1_0000_0000_0000_0000
      && 0 <= next <= factor
      && my * factor + carry == tmp % BASE + next * BASE
  {
    var low, high := factor % 0x1_0000_0000, factor / 0x1_0000_0000;
    MulLe(0, my, low);
    MulLe(0, my, high);
    MulLe(my, BASE, low);
    assert low * my <= low * BASE;
    var tmp := carry % BASE + low * my;
    var next := carry / BASE + tmp / BASE + high * my * 16;
    assert my * factor == low * my + high * my * 0x1_0000_0000 by {
      assert factor == low + high * 0x1_0000_0000;
      assert my * (low + high * 0x1_0000_0000) == low * my + high * my * 0x1_0000_0000;
    }
    MulLe(my, BASE - 1, factor);
    assert next * BASE <= factor * BASE;
  }

  // ---------- Quotients ----------

  lemma QuotientSumFits(v: int, w: int, result: nat, more: nat, rest: nat)
    requires 0 < w && v < 0x1_0000 * w && v == result * w + (rest + more * w)
    ensures v == (result + more) * w + rest && result + more < 0x1_0000
  {
    assert (result + more) * w == result * w + more * w;
    MulCancelLt(result + more, 0x1_0000, w);
  }

  lemma QuotientSumUnique(v: int, w: int, result: nat, more: nat, rest: nat)
    requires 0 < w && v == result * w + (more * w + rest) && rest < w
    ensures v / w == result + more && v % w == rest
  {
    assert (result + more) * w == result * w + more * w;
    DivUnique(v, w, result + more, rest);
  }

  // What is left when multiples of w by the top bigit are removed until the
  // number is no longer than w.
  ghost function LongRest(v: nat, w: nat, length: nat): nat
    decreases v
  {
    if v < PB(length) || w == 0 || PB(length) <= w then v
    else
      TopMultiple(v, w, PB(length)); LongRest(v - v / PB(length) * w, w, length)
  }

  // Taking the top bigit's worth of w from v leaves at least p - w.
  lemma TopMultiple(v: nat, w: nat, p: nat)
    requires 0 < w < p <= v
    ensures 1 <= v / p && w <= v / p * w <= v && p - w <= v - v / p * w < v
  {
    DivMod(v, p);
    DivLe(v, p, 1);
    MulLe(1, v / p, w);
    MulLe(1, v / p, p - w);
    assert v / p * (p - w) == v / p * p - v / p * w;
  }

  lemma LongRestStep(v: nat, w: nat, length: nat)
    requires 0 < w < PB(length) <= v
    ensures 0 <= v - v / PB(length) * w
    ensures LongRest(v, w, length) == LongRest(v - v / PB(length) * w, w, length)
  {
    hide PB;
    TopMultiple(v, w, PB(length));
  }

  lemma LongRestEnd(v: nat, w: nat, length: nat)
    requires v < PB(length)
    ensures LongRest(v, w, length) == v
  {
    hide PB;
  }

  lemma OneBigitLonger(v: nat, w: nat, top: nat, n: nat, length: nat)
    requires length < n && v < 0x1_0000 * w && w < PB(length)
    requires top * PB(n - 1) <= v < (top + 1) * PB(n - 1) && 0 < top
    ensures n == length + 1 && v / PB(length) == top && PB(length) <= v
  {
    hide PB;
    PBStep(length);
    PBMono(length, n - 1);
    MulLe(1, top, PB(n - 1));
    if length + 1 < n {
      PBMono(length + 1, n - 1);
    } else {
      DivUnique(v, PB(length), top, v - top * PB(length));
    }
  }

  lemma {:induction false} LongRestIsLong(v: nat, w: nat, length: nat)
    requires 0 < length && 0 < w <= (BASE - 1) * PB(length - 1) && w < PB(length) && PB(length - 1) <= v
    ensures PB(length - 1) <= LongRest(v, w, length)
    decreases v
  {
    hide PB;
    if PB(length) <= v {
      TopMultiple(v, w, PB(length));
      PBStep(length - 1);
      LongRestStep(v, w, length);
      LongRestIsLong(v - v / PB(length) * w, w, length);
    }
  }

  // The power of the base itself leaves too little for every larger divisor.
  lemma LongRestOfPower(w: nat, length: nat)
    requires 0 < length && (BASE - 1) * PB(length - 1) < w < PB(length)
    ensures PB(length) < 0x1_0000 * w && PB(length - 1) <= PB(length)
    ensures LongRest(PB(length), w, length) < PB(length - 1)
  {
    hide PB, LongRest;
    PBStep(length - 1);
    PBMono(length - 1, length);
    DivUnique(PB(length), PB(length), 1, 0);
    LongRestStep(PB(length), w, length);
    LongRestEnd(PB(length) - w, w, length);
  }

  // The length that is asserted after the loop is there for every dividend
  // exactly when the divisor is not above (B - 1) * B^(length - 1).
  lemma LengthAssertion(w: nat, length: nat)
    requires 0 < length && PB(length - 1) <= w < PB(length)
    ensures (forall v: nat :: PB(length - 1) <= v < 0x1_0000 * w ==> PB(length - 1) <= LongRest(v, w, length))
      <==> w <= (BASE - 1) * PB(length - 1)
  {
    hide PB, LongRest;
    if w <= (BASE - 1) * PB(length - 1) {
      forall v: nat | PB(length - 1) <= v < 0x1_0000 * w ensures PB(length - 1) <= LongRest(v, w, length) {
        LongRestIsLong(v, w, length);
      }
    } else {
      LongRestOfPower(w, length);
    }
  }

  // The top bigits never promise too large a quotient, and when one more
  // multiple of the divisor's top exceeds this top nothing is left to take.
  lemma EstimateFits(v: nat, w: nat, top: nat, otherTop: nat, n: nat, m: nat)
    requires 0 < n <= m && 0 < top < BASE && 0 < otherTop < BASE
    requires top * PB(n - 1) <= v < (top + 1) * PB(n - 1)
    requires otherTop * PB(m - 1) <= w < (otherTop + 1) * PB(m - 1)
    requires n < m ==> PB(m) <= v + w
    ensures var estimate := top / (otherTop + 1);
      && 0 <= estimate < BASE && estimate * w <= v
      && (otherTop * (estimate + 1) > top ==> v - estimate * w < w)
  {
    hide PB;
    DivMod(top, otherTop + 1);
    if n < m {
      ShortRest(v, w, top, otherTop, n, m);
      DivUnique(top, otherTop + 1, 0, top);
    } else {
      EstimateAtSameLength(v, w, top, otherTop, top / (otherTop + 1), PB(m - 1));
    }
  }

  lemma ShortRest(v: nat, w: nat, top: nat, otherTop: nat, n: nat, m: nat)
    requires 0 < n < m && top < BASE && 0 < otherTop < BASE
    requires v < (top + 1) * PB(n - 1)
    requires otherTop * PB(m - 1) <= w < (otherTop + 1) * PB(m - 1)
    requires PB(m) <= v + w
    ensures otherTop == BASE - 1 && v < w
  {
    hide PB;
    var p := PB(m - 1);
    PBMono(n, m - 1);
    PBStep(n - 1);
    PBStep(m - 1);
    MulLe(top + 1, BASE, PB(n - 1));
    assert v < p;
    MulLe(1, otherTop, p);
    assert BASE * p < (otherTop + 2) * p by {
      assert (otherTop + 2) * p == (otherTop + 1) * p + p;
    }
    MulCancelLt(BASE, otherTop + 2, p);
  }

  lemma EstimateAtSameLength(v: nat, w: nat, top: nat, otherTop: nat, estimate: nat, p: nat)
    requires estimate * (otherTop + 1) <= top && 0 < p
    requires top * p <= v < (top + 1) * p
    requires otherTop * p <= w < (otherTop + 1) * p
    ensures estimate * w <= v
    ensures otherTop * (estimate + 1) > top ==> v - estimate * w < w
  {
    ProductOfParts(estimate, w, otherTop + 1, p, top);
    if otherTop * (estimate + 1) > top {
      ProductBeyond(estimate + 1, w, otherTop, p, top + 1);
      assert (estimate + 1) * w == estimate * w + w;
    }
  }

  lemma ProductOfParts(a: nat, w: nat, b: nat, p: nat, c: nat)
    requires w <= b * p && a * b <= c
    ensures a * w <= c * p
  {
    MulLe(w, b * p, a);
    MulLe(a * b, c, p);
    assert a * (b * p) == a * b * p;
  }

  lemma ProductBeyond(a: nat, w: nat, b: nat, p: nat, c: nat)
    requires b * p <= w && c <= b * a
    ensures c * p <= a * w
  {
    MulLe(b * p, w, a);
    MulLe(c, b * a, p);
    assert a * (b * p) == b * a * p;
  }

  // Two different multiples of B^e differ by at least B^e.
  lemma GapOfMultiples(w: nat, n: nat, e: nat)
    requires e <= n && w == w / PB(e) * PB(e) && w < PB(n)
    ensures w + PB(e) <= PB(n)
  {
    hide PB;
    PBAdd(n - e, e);
    MulCancelLt(w / PB(e), PB(n - e), PB(e));
    MulLe(w / PB(e) + 1, PB(n - e), PB(e));
  }

  lemma BigitQuotient(top: nat, otherTop: nat, low: nat, p: nat, q: nat)
    requires 0 < otherTop && 0 < p && 0 < q && low < p
    ensures (low + top * p) * q == top / otherTop * (otherTop * (p * q)) + (low + top % otherTop * p) * q
    ensures (low + top % otherTop * p) * q < otherTop * (p * q)
  {
    DivMod(top, otherTop);
    var k, r := top / otherTop, top % otherTop;
    assert (low + (k * otherTop + r) * p) * q == k * (otherTop * (p * q)) + (low + r * p) * q;
    MulLe(r + 1, otherTop, p);
    MulLt(low + r * p, otherTop * p, q);
  }

  // ---------- Columns of a square ----------

  lemma SquareScaled(m: int, p: int)
    ensures m * m * (p * p) == m * p * (m * p)
  {
  }

  lemma SquareBound(s: seq<Bigit>)
    ensures 0 <= Val(s) * Val(s) < PB(2 * |s|)
  {
    hide PB, Val;
    ValBound(s);
    PBAdd(|s|, |s|);
    MulLe(Val(s), PB(|s|) - 1, Val(s));
    MulLe(Val(s), PB(|s|), PB(|s|) - 1);
  }

  lemma NothingLeft(low: nat, accumulator: nat, p: nat, total: nat)
    requires low + accumulator * p == total < p
    ensures accumulator == 0 && low == total
  {
    if accumulator > 0 { MulLe(1, accumulator, p); }
  }

  lemma ColumnTotalStart(s: seq<Bigit>, m: nat)
    requires m <= |s|
    ensures ColumnTotal(s, m, 0) == 0
  {
  }

  lemma ColumnStart(s: seq<Bigit>, k: nat)
    ensures Column(s, k, 0) == 0
  {
  }

  lemma ColumnStep(s: seq<Bigit>, k: nat, j: nat, chunk1: int, chunk2: int)
    requires j < |s| && j <= k && k - j < |s| && chunk1 == s[k - j] && chunk2 == s[j]
    ensures Column(s, k, j + 1) == Column(s, k, j) + chunk1 * chunk2
  {
  }

  lemma ColumnTotalStep(s: seq<Bigit>, k: nat, start: int, sum: int)
    requires sum == start + Column(s, k, |s|)
    ensures ColumnTotal(s, |s|, k + 1) + start * PB(k) == ColumnTotal(s, |s|, k) + sum * PB(k)
  {
    hide PB;
    SumTimes(start, Column(s, k, |s|), PB(k));
  }

  // No 64-bit overflow in a column, and the carry out of it stays small.
  lemma ColumnFits(s: seq<Bigit>, k: nat, m: nat, start: nat, n: nat)
    requires m <= |s| == n && 2 * n <= CAPACITY && start <= n * (BASE - 1)
    ensures 0 <= start + Column(s, k, m) < 0x1_0000_0000_0000_0000
    ensures 0 <= (start + Column(s, k, m)) / BASE <= n * (BASE - 1)
  {
    ColumnBound(s, k, m);
    MulLe(m, n, (BASE - 1) * (BASE - 1));
  }

  // ---------- Repeated factors ----------

  lemma MulCommutes(a: int, b: int)
    ensures a * b == b * a
  {
  }

  lemma PartialStep(m: nat, v: nat, n: nat, k: nat, j: nat)
    requires k + j <= n && m * Pow(5, n) < PB(CAPACITY - 1)
    ensures m * Pow(5, k) * Pow(5, j) == m * Pow(5, k + j) < PB(CAPACITY)
    ensures v * Pow(5, k) * Pow(5, j) == v * Pow(5, k + j)
  {
    hide PB, Pow;
    PowAdd(5, k, j);
    PowMono(5, k + j, n);
    MulLe(Pow(5, k + j), Pow(5, n), m);
    PBMono(CAPACITY - 1, CAPACITY);
    MulAssoc(m, Pow(5, k), Pow(5, j));
    MulAssoc(v, Pow(5, k), Pow(5, j));
  }

  // ---------- Power by squaring ----------

  function Odd(b: nat): (r: nat)
    requires 0 < b
    ensures 0 < r && r % 2 == 1
  {
    if b % 2 == 0 then Odd(b / 2) else b
  }

  function BitSize(x: nat): nat
  {
    if x == 0 then 0 else 1 + BitSize(x / 2)
  }

  // The capacity that AssignPowerUInt16 asks for before it starts.
  predicate PowerFits(base: nat, n: nat)
    requires 0 < base
  {
    n == 0 || BitSize(Odd(base)) * n / BIGIT_SIZE + 2 <= CAPACITY
  }

  lemma {:induction false} BitSizeBounds(x: nat)
    ensures x < Pow(2, BitSize(x))
    ensures 0 < x ==> 0 < BitSize(x) && Pow(2, BitSize(x) - 1) <= x
  {
    if x != 0 { BitSizeBounds(x / 2); }
  }

  method OddAndTwos(base0: nat) returns (base: nat, shifts: nat)
    requires 0 < base0
    ensures base == Odd(base0) <= base0 && base0 == base * Pow(2, shifts)
  {
    base, shifts := base0, 0;
    while base % 2 == 0
      invariant 0 < base <= base0 && Odd(base) == Odd(base0) && base0 == base * Pow(2, shifts)
      decreases base
    {
      HalfAndDouble(base, Pow(2, shifts));
      base := base / 2;
      shifts := shifts + 1;
    }
  }

  lemma HalfAndDouble(b: nat, p: nat)
    requires b % 2 == 0
    ensures b * p == b / 2 * (2 * p)
  {
    var h := b / 2;
    assert 2 * h * p == h * (2 * p);
  }

  method CountBits(base: nat) returns (bitSize: nat)
    ensures bitSize == BitSize(base)
  {
    bitSize := 0;
    var tmp := base;
    while tmp != 0
      invariant bitSize + BitSize(tmp) == BitSize(base)
    {
      tmp := tmp / 2;
      bitSize := bitSize + 1;
    }
  }

  // The mask for bit m, or 0 when no bit is left.
  ghost predicate MaskAt(mask: nat, m: int)
  {
    -1 <= m && mask == if m < 0 then 0 else Pow(2, m)
  }

  lemma MaskFacts(mask: nat, m: int)
    requires MaskAt(mask, m)
    ensures -1 <= m && (mask == 0 <==> m == -1)
  {
    if m >= 0 { PowPos(2, m); }
  }

  lemma PrefixStep(n: nat, m: int, mask: nat, base: nat)
    requires MaskAt(mask, m) && mask != 0
    ensures 0 < Pow(2, m) && 0 < Pow(2, m + 1) && MaskAt(mask / 2, m - 1)
    ensures var p, bit := n / Pow(2, m + 1), n / mask % 2;
      && n / Pow(2, m) == 2 * p + bit <= n
      && Pow(base, 2 * p) == Pow(base, p) * Pow(base, p)
      && Pow(base, 2 * p + 1) == Pow(base, p) * Pow(base, p) * base
  {
    hide Pow;
    PowPos(2, m);
    PowPos(2, m + 1);
    PowStep(2, m);
    HalfMaskAt(mask, m);
    var p := n / Pow(2, m + 1);
    HalfQuotient(n, mask);
    PowAdd(base, p, p);
    PowStep(base, 2 * p);
    MulCommutes(base, Pow(base, p) * Pow(base, p));
  }

  lemma HalfMaskAt(mask: nat, m: int)
    requires MaskAt(mask, m) && 0 <= m
    ensures MaskAt(mask / 2, m - 1)
  {
    if m == 0 { PowZero(2); } else { PowStep(2, m - 1); }
  }

  lemma HalfQuotient(n: nat, mask: nat)
    requires 0 < mask
    ensures n / mask == 2 * (n / (2 * mask)) + n / mask % 2 <= n
  {
    var q := n / mask;
    DivMod(n, mask);
    HalfParts(q / 2, q % 2, mask);
    var low := if q % 2 == 1 then mask + n % mask else n % mask;
    DivUnique(n, 2 * mask, q / 2, low);
    MulLe(1, mask, q);
  }

  lemma HalfParts(h: int, b: int, p: int)
    requires b == 0 || b == 1
    ensures (2 * h + b) * p == h * (2 * p) + if b == 1 then p else 0
  {
  }

  // The leading bits of n, as long as the power fits 64 bits; the last factor
  // may have to wait for the bignum.
  method SmallPower(base: nat, n: nat, bitSize: nat)
    returns (thisValue: uint64, mask: nat, delayed: bool, ghost m: int)
    requires 0 < base < 0x1_0000 && 0 < n && bitSize == BitSize(base)
    ensures -1 <= m && MaskAt(mask, m) && 0 < Pow(2, m + 1)
    ensures thisValue * (if delayed then base else 1) == Pow(base, n / Pow(2, m + 1))
  {
    hide Pow, MaskAt, BitSize;
    mask, m := FirstMask(n, base);
    thisValue, delayed := base, false;
    SmallBits(base, bitSize);
    MaskFacts(mask, m);
    while mask != 0 && thisValue <= 0xFFFF_FFFF
      invariant -1 <= m && MaskAt(mask, m) && (mask == 0 <==> m == -1) && 0 < Pow(2, m + 1)
      invariant 0 <= thisValue < 0x1_0000_0000_0000_0000 && (delayed ==> thisValue > 0xFFFF_FFFF)
      invariant thisValue * (if delayed then base else 1) == Pow(base, n / Pow(2, m + 1))
      decreases m
    {
      PrefixStep(n, m, mask, base);
      thisValue, delayed := SquareSmall(base, bitSize, thisValue, n / mask % 2 != 0);
      mask := mask / 2;
      m := m - 1;
      MaskFacts(mask, m);
    }
  }

  // The mask of the bit below the top bit of n.
  method FirstMask(n: nat, ghost base: nat) returns (mask: nat, ghost m: int)
    requires 0 < n
    ensures MaskAt(mask, m) && 0 < Pow(2, m + 1) && Pow(base, n / Pow(2, m + 1)) == base
  {
    hide Pow;
    PowZero(2);
    mask, m := 1, 0;
    while n >= mask
      invariant 0 <= m && mask == Pow(2, m) && 1 <= mask
      invariant m == 0 || Pow(2, m - 1) <= n
      decreases n - mask
    {
      PowStep(2, m);
      mask := mask * 2;
      m := m + 1;
    }
    PowStep(2, m - 1);
    PowPos(2, m - 1);
    DivUnique(n, Pow(2, m - 1), 1, n - Pow(2, m - 1));
    PowOne(base);
    m := m - 2;
    HalfMask(mask, m);
    mask := mask / 4;
  }

  // One step of the 64-bit power; without room for the factor it is delayed.
  method SquareSmall(base: nat, bitSize: nat, value: uint64, odd: bool) returns (thisValue: uint64, delayed: bool)
    requires value <= 0xFFFF_FFFF && bitSize <= 64 && base < Pow(2, bitSize) && 0xFFFF_FFFF < Pow(2, 64 - bitSize)
    ensures delayed ==> odd && thisValue > 0xFFFF_FFFF
    ensures thisValue * (if delayed then base else 1) == value * value * (if odd then base else 1)
  {
    hide Pow;
    MulLe(value, 0xFFFF_FFFF, value);
    MulLe(value, 0xFFFF_FFFF, 0xFFFF_FFFF);
    thisValue, delayed := value * value, false;
    if odd {
      var highBitsZero := thisValue < Pow(2, 64 - bitSize);
      if highBitsZero {
        RoomForFactor(thisValue, base, bitSize);
        thisValue := thisValue * base;
      } else {
        delayed := true;
      }
    }
  }

  lemma PowOne(b: nat)
    ensures Pow(b, 1) == b
  {
    assert Pow(b, 1) == b * Pow(b, 0);
  }

  lemma HalfMask(mask: nat, m: int)
    requires -1 <= m && mask == Pow(2, m + 2)
    ensures MaskAt(mask / 4, m)
  {
    if m < 0 {
      PowOne(2);
    } else {
      assert Pow(2, m + 2) == 2 * Pow(2, m + 1);
    }
  }

  lemma SmallBits(base: nat, bitSize: nat)
    requires 0 < base < 0x1_0000 && bitSize == BitSize(base)
    ensures 1 <= bitSize <= 16 && base < Pow(2, bitSize)
    ensures 0xFFFF_FFFF < Pow(2, 64 - bitSize)
  {
    hide Pow;
    BitSizeBounds(base);
    TwoTo16();
    if bitSize > 16 { PowMono(2, 16, bitSize - 1); }
    PowAdd(2, 16, 16);
    PowAdd(2, 32, 16);
    PowMono(2, 48, 64 - bitSize);
  }

  lemma TwoTo16()
    ensures Pow(2, 16) == 0x1_0000
  {
    PowAdd(2, 8, 8);
    assert Pow(2, 8) == 256;
  }

  lemma RoomForFactor(v: nat, base: nat, bitSize: nat)
    requires bitSize <= 64 && v < Pow(2, 64 - bitSize) && base < Pow(2, bitSize)
    ensures 0 <= v * base < 0x1_0000_0000_0000_0000
  {
    hide Pow;
    PowAdd(2, 64 - bitSize, bitSize);
    TwoTo16();
    PowAdd(2, 16, 16);
    PowAdd(2, 32, 32);
    MulLe(v, Pow(2, 64 - bitSize) - 1, base);
    MulLe(base, Pow(2, bitSize), Pow(2, 64 - bitSize) - 1);
    MulLt(Pow(2, 64 - bitSize) - 1, Pow(2, 64 - bitSize), Pow(2, bitSize));
  }

  lemma SmallCapacity(v: uint64, base: nat)
    requires base < 0x1_0000
    ensures 0 <= v * base < PB(CAPACITY)
  {
    hide PB;
    MulLe(0, v, base);
    MulLe(v, 0x1_0000_0000_0000_0000, base);
    PBOne();
    PBStep(1);
    PBStep(2);
    PBMono(3, CAPACITY);
  }

  // The bigits of base^p.
  lemma PowerUsed(base: nat, p: nat, n: nat, bitSize: nat)
    requires base < Pow(2, bitSize) && p <= n
    ensures 0 <= bitSize * p
    ensures Pow(base, p) < PB(bitSize * p / BIGIT_SIZE + 1)
    ensures 2 * p <= n ==> 2 * (bitSize * p / BIGIT_SIZE + 1) <= bitSize * n / BIGIT_SIZE + 2
  {
    hide Pow, PB;
    PowBaseMono(base, Pow(2, bitSize), p);
    PowMul(2, bitSize, p);
    BitsInBigits(bitSize * p);
    if 2 * p <= n { MulLe(2 * p, n, bitSize); }
  }

  lemma BitsInBigits(bits: nat)
    ensures Pow(2, bits) < PB(bits / BIGIT_SIZE + 1)
  {
    hide Pow, PB;
    ShiftSplit(bits);
    PBStep(bits / BIGIT_SIZE);
    TwoTo28();
    PowStrictMono(2, bits % BIGIT_SIZE, BIGIT_SIZE);
    MulLt(Pow(2, bits % BIGIT_SIZE), BASE, PB(bits / BIGIT_SIZE));
  }

  lemma PowerFitsCapacity(base: nat, p: nat, n: nat, bitSize: nat)
    requires 0 < base < Pow(2, bitSize) && p <= n && bitSize * n / BIGIT_SIZE + 2 <= CAPACITY
    ensures Pow(base, p) < PB(CAPACITY)
  {
    hide Pow, PB;
    PowMono(base, p, n);
    PowerUsed(base, n, n, bitSize);
    PBMono(bitSize * n / BIGIT_SIZE + 1, CAPACITY);
  }

  lemma ShiftsFit(base0: nat, base: nat, shifts: nat, n: nat, bitSize: nat)
    requires base0 == base * Pow(2, shifts) < 0x1_0000 && 0 < base && 0 < bitSize
    requires bitSize * n / BIGIT_SIZE + 2 <= CAPACITY
    ensures 0 <= shifts * n && shifts * n / BIGIT_SIZE < 0x8000
  {
    hide Pow;
    TwoTo16();
    MulLe(1, base, Pow(2, shifts));
    if shifts > 16 { PowMono(2, 16, shifts); }
    MulLe(shifts, 16, n);
    MulLe(1, bitSize, n);
  }

  // ---------- Decimal digits ----------

  // 10^1000 < 2^3336 < B^126.
  lemma DecimalFits(n: nat)
    requires n <= 1000
    ensures Pow(10, n) <= PB(CAPACITY - 2)
  {
    hide Pow, PB;
    PowMono(10, n, 1002);
    PowMul(10, 3, 334);
    assert Pow(10, 3) == 1000 by { PowThree(); }
    TwoTo10();
    PowBaseMono(1000, 1024, 334);
    PowMul(2, 10, 334);
    PowMul(2, BIGIT_SIZE, CAPACITY - 2);
    TwoTo28();
    PowMono(2, 3340, BIGIT_SIZE * (CAPACITY - 2));
    PBIsPow(CAPACITY - 2);
  }

  lemma PowThree()
    ensures Pow(10, 3) == 1000
  {
  }

  lemma PBIsPow(n: nat)
    ensures PB(n) == Pow(BASE, n)
  {
  }

  method ReadUInt64(buffer: seq<char>, from: nat, digitsToRead: nat) returns (result: uint64)
    requires IsDigits(buffer) && from + digitsToRead <= |buffer| && digitsToRead <= 19
    ensures result == DecVal(buffer[from..from + digitsToRead])
  {
    result := 0;
    DecEmpty();
    assert buffer[from..from] == [];
    for i := from to from + digitsToRead
      invariant result == DecVal(buffer[from..i])
    {
      var digit := DigitValue(buffer[i]);
      assert buffer[from..i + 1] == buffer[from..i] + [buffer[i]];
      DecAppend(buffer[from..i], buffer[i]);
      DecBound(buffer[from..i + 1]);
      PowMono(10, i + 1 - from, 19);
      TenTo19();
      result := result * 10 + digit;
    }
  }

  lemma TenTo19()
    ensures Pow(10, 19) == 10000000000000000000
  {
    PowAdd(10, 10, 9);
    assert Pow(10, 9) == 1000000000;
    assert Pow(10, 10) == 10000000000;
  }
}
