// external/double-conversion/double-to-string.cc: a fast conversion, and the exact
// one where the fast one refuses.
module DoubleToString {
  import opened Powers
  import opened Decimal
  import opened DecimalMeaning
  import opened ClosestDigits
  import opened Ieee
  import opened CachedPowers
  import opened Logarithms
  import opened FastDtoa
  import opened FixedDtoa
  import opened BignumDtoa
  import PowerTable

  const SIGN_BIT: int := 0x8000_0000_0000_0000

  // The bits without the sign.
  function Magnitude(d64: uint64): (v: Double) { Double(d64 % SIGN_BIT) }

  // Neither infinite nor a NaN.
  predicate IsFinite(d64: uint64) { Magnitude(d64).d64 < INFINITY }

  // What is asked of the digits, which are followed by a null character.
  ghost predicate Denotes(v: Double, mode: Mode, requestedDigits: nat, digits: seq<char>, point: int)
    requires v.IsFinitePositive() && IsDigits(digits)
  {
    match mode
    case Shortest => |digits| <= 17 && IsShortest(v, DecVal(digits), |digits|, point)
    case Fixed =>
      && IsFixed(v, requestedDigits, DecVal(digits), point - |digits|) && |digits| - point <= requestedDigits
      && if |digits| > 0 then digits[0] != '0' else point == -(requestedDigits as int)
    case Precision =>
      |digits| == requestedDigits > 0 && digits[0] != '0' && IsPrecise(v, requestedDigits, DecVal(digits), point)
  }

  // Room for the digits and the null character.
  ghost predicate HasRoom(v: Double, mode: Mode, requestedDigits: nat, size: nat)
  {
    && 2 <= size
    && (mode.Shortest? ==> 18 <= size)
    && (mode.Fixed? ==> v.Value() < RPow(10, size - requestedDigits - 1))
    && (mode.Fixed? && requestedDigits <= 20 ==> 26 + requestedDigits <= size)
    && (mode.Precision? ==> requestedDigits < size)
  }

  // The fast conversions, which may refuse.
  method FastConversion(v: Double, mode: Mode, requestedDigits: nat, buffer: array<char>, error: real)
    returns (fastWorked: bool, length: nat, point: int)
    requires v.IsFinitePositive() && HasRoom(v, mode, requestedDigits, buffer.Length)
    requires mode.Precision? ==> 0 < requestedDigits
    requires -HARDWARE_ERROR <= error <= HARDWARE_ERROR
    modifies buffer
    ensures fastWorked ==> length < buffer.Length && buffer[length] == '\0' && IsDigits(buffer[..length])
    ensures fastWorked ==> Denotes(v, mode, requestedDigits, buffer[..length], point)
    ensures fastWorked && mode.Shortest? ==> IsUniqueShortest(v, DecVal(buffer[..length]), length, point)
    ensures fastWorked && mode.Fixed? ==>
      if length > 0 then buffer[0] != '0' && buffer[length - 1] != '0' else point == -(requestedDigits as int)
  {
    hide RPow, DecVal, IsShortest, IsFixed, IsPrecise, GoodCache, UniquelyNearest, Double.Value;
    PowerTable.TableIsGood();
    match mode
    case Shortest =>
      fastWorked, length, point := FastDtoa.FastDtoa(v, FastShortest, 0, buffer, PowerTable.CACHED_POWERS, error);
    case Fixed =>
      fastWorked, length, point := FastFixedDtoa(v, requestedDigits, buffer);
    case Precision =>
      fastWorked, length, point := FastDtoa.FastDtoa(v, FastPrecision, requestedDigits, buffer, PowerTable.CACHED_POWERS, error);
  }

  method DoubleToAscii(d64: uint64, mode: Mode, requestedDigits: nat, buffer: array<char>, fastError: real, exactError: real)
    returns (sign: bool, length: nat, point: int)
    requires IsFinite(d64) && HasRoom(Magnitude(d64), mode, requestedDigits, buffer.Length)
    requires -HARDWARE_ERROR <= fastError <= HARDWARE_ERROR && -HARDWARE_ERROR <= exactError <= HARDWARE_ERROR
    modifies buffer
    ensures sign <==> SIGN_BIT <= d64
    ensures length < buffer.Length && buffer[length] == '\0' && IsDigits(buffer[..length])
    ensures mode.Precision? && requestedDigits == 0 ==> length == 0
    ensures !(mode.Precision? && requestedDigits == 0) && Magnitude(d64).d64 == 0 ==> buffer[..length] == "0" && point == 1
    ensures !(mode.Precision? && requestedDigits == 0) && Magnitude(d64).d64 != 0 ==>
      Denotes(Magnitude(d64), mode, requestedDigits, buffer[..length], point)
  {
    hide RPow, DecVal, IsShortest, IsFixed, IsPrecise, Double.Value;
    sign := SIGN_BIT <= d64;
    var v := Magnitude(d64);
    if mode.Precision? && requestedDigits == 0 {
      buffer[0] := '\0';
      return sign, 0, 0;
    }
    if v.d64 == 0 {
      buffer[0] := '0';
      buffer[1] := '\0';
      return sign, 1, 1;
    }
    var fastWorked;
    fastWorked, length, point := FastConversion(v, mode, requestedDigits, buffer, fastError);
    if fastWorked {
      return;
    }
    length, point := BignumDtoa.BignumDtoa(v, mode, requestedDigits, buffer, exactError);
    ghost var digits: seq<char> := buffer[..length];
    buffer[length] := '\0';
    assert buffer[..length] == digits;
  }

  // Where the fast conversion works, it gives what the exact one gives; in fixed
  // mode the exact one may add zeros at the end.
  method FastAndExact(v: Double, mode: Mode, requestedDigits: nat, fast: array<char>, exact: array<char>,
                      fastError: real, exactError: real)
    returns (fastWorked: bool, fastLength: nat, fastPoint: int, length: nat, point: int)
    requires v.IsFinitePositive() && fast != exact
    requires HasRoom(v, mode, requestedDigits, fast.Length) && HasRoom(v, mode, requestedDigits, exact.Length)
    requires mode.Precision? ==> 0 < requestedDigits
    requires -HARDWARE_ERROR <= fastError <= HARDWARE_ERROR && -HARDWARE_ERROR <= exactError <= HARDWARE_ERROR
    modifies fast, exact
    ensures length < exact.Length && (fastWorked ==> fastLength < fast.Length && fastPoint == point)
    ensures fastWorked && !mode.Fixed? ==> fast[..fastLength] == exact[..length]
    ensures fastWorked && mode.Fixed? ==>
      fastLength <= length && exact[..length] == fast[..fastLength] + Zeros(length - fastLength)
  {
    hide RPow, DecVal, IsShortest, IsFixed, IsPrecise, UniquelyNearest, Double.Value;
    fastWorked, fastLength, fastPoint := FastConversion(v, mode, requestedDigits, fast, fastError);
    length, point := BignumDtoa.BignumDtoa(v, mode, requestedDigits, exact, exactError);
    if fastWorked {
      ghost var f: seq<char>, e: seq<char> := fast[..fastLength], exact[..length];
      match mode
      case Shortest => FastRefinesExact(v, f, fastPoint, e, point);
      case Fixed => FastRefinesSlow(v, requestedDigits, f, fastPoint, e, point);
      case Precision => RoundedRefinesExact(v, f, fastPoint, e, point);
    }
  }
}
