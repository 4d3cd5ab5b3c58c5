// Printing a double and reading the digits gives the double back.
module RoundTrip {
  import opened Powers
  import opened Decimal
  import opened DecimalMeaning
  import opened ClosestDigits
  import opened Ieee
  import opened CachedPowers
  import opened Logarithms
  import opened Comparison
  import opened Strtod
  import opened DoubleOperations
  import BignumDtoa
  import opened DoubleToString
  import PowerTable

  // The shortest digits of v are read as v by anything that rounds to nearest,
  // ties to even, and no shorter digits are.
  lemma ShortestIdentity(v: Double, digits: seq<char>, point: int, u: nat)
    requires v.IsFinitePositive() && IsDigits(digits) && IsShortest(v, DecVal(digits), |digits|, point)
    requires u <= INFINITY && RoundsTo(Read(digits, point - |digits|), u)
    ensures u == v.d64
  {
    hide DecVal, DecimalValue, RoundsTo, NearestWithUnit, ClosestOfLength;
    RoundsToIsUnique(Read(digits, point - |digits|), u, v.d64);
  }

  // Fewer digits never denote v: with the point anywhere, they are read as
  // another double.
  lemma NoShorterIdentity(v: Double, digits: seq<char>, length: nat, point: int, shorter: seq<char>, exponent: int, u: nat)
    requires v.IsFinitePositive() && IsDigits(digits) && IsShortest(v, DecVal(digits), length, point)
    requires IsDigits(shorter) && |shorter| < length
    requires u <= INFINITY && RoundsTo(Read(shorter, exponent), u)
    ensures u != v.d64
  {
    hide DecVal, DecimalValue, RoundsTo, NearestWithUnit, ClosestOfLength, Pow;
    DecBound(shorter);
    PowMono(10, |shorter|, length - 1);
  }

  // Zero is read as zero.
  lemma ZeroIdentity(u: nat)
    requires u <= INFINITY && RoundsTo(Read("0", 0), u)
    ensures u == 0
  {
    hide DecVal, RPow;
    DecAppend([], '0');
    DecEmpty();
    assert [] + ['0'] == "0";
    RPowPos(2, DENORMAL_EXPONENT - 1);
    RoundsToIsUnique(0.0, u, 0);
  }

  // Every finite double, of either sign, comes back with all its bits.
  method PrintAndRead(d64: uint64, fastError: real, exactError: real, hardware: Arithmetic) returns (u: uint64)
    requires IsFinite(d64) && hardware.IsCorrect()
    requires -HARDWARE_ERROR <= fastError <= HARDWARE_ERROR && -HARDWARE_ERROR <= exactError <= HARDWARE_ERROR
    ensures u == d64
  {
    hide DecVal, IsShortest, RoundsTo, GoodCache, Read, RPow, Arithmetic.IsCorrect;
    PowerTable.TableIsGood();
    var buffer := new char[18];
    var sign, length, point := DoubleToAscii(d64, BignumDtoa.Shortest, 0, buffer, fastError, exactError);
    var digits := buffer[..length];
    u := Strtod.Strtod(digits, point - length, PowerTable.CACHED_POWERS, hardware);
    if Magnitude(d64).d64 == 0 {
      ZeroIdentity(u);
    } else {
      ShortestIdentity(Magnitude(d64), digits, point, u);
    }
    if sign {
      u := u + SIGN_BIT;
    }
  }
}
