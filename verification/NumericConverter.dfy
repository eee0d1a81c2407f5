/** NumericConverter: integral to integral rescaling, with the limits of the C++ integer types. */
module NumericConverter {
  import opened Collections
  import opened Decimal

  datatype IntType = Int16 | Int32 | Int64

  function MinOf(t: IntType): int {
    match t
    case Int16 => -0x8000
    case Int32 => -0x8000_0000
    case Int64 => -0x8000_0000_0000_0000
  }

  function MaxOf(t: IntType): int {
    match t
    case Int16 => 0x7FFF
    case Int32 => 0x7FFF_FFFF
    case Int64 => 0x7FFF_FFFF_FFFF_FFFF
  }

  predicate Fits(v: int, t: IntType) { MinOf(t) <= v <= MaxOf(t) }

  /** GreaterNumberType: the wider of the two. */
  function Wider(a: IntType, b: IntType): IntType {
    if a.Int64? || b.Int64? then Int64 else if a.Int32? || b.Int32? then Int32 else Int16
  }

  function Bits(t: IntType): nat {
    match t
    case Int16 => 16
    case Int32 => 32
    case Int64 => 64
  }

  function Pow2(n: nat): nat { if n == 0 then 1 else 2 * Pow2(n - 1) }

  /** The limits are those of two's complement, and the wider type has the more bits. */
  lemma LimitsByWidth(t: IntType, u: IntType)
    ensures MaxOf(t) + 1 == Pow2(Bits(t) - 1) == -MinOf(t)
    ensures Bits(Wider(t, u)) == Max(Bits(t), Bits(u))
  {
    assert Pow2(15) == 0x8000 by {
      assert Pow2(3) == 8;
      Pow2Four(3);
      Pow2Four(7);
      Pow2Four(11);
    }
    assert Pow2(31) == 0x8000_0000 by { Pow2Sixteen(15); }
    assert Pow2(47) == 0x8000_0000_0000 by { Pow2Sixteen(31); }
    assert Pow2(63) == 0x8000_0000_0000_0000 by { Pow2Sixteen(47); }
  }

  lemma Pow2Sixteen(n: nat)
    ensures Pow2(n + 16) == 0x1_0000 * Pow2(n)
  {
    Pow2Four(n);
    Pow2Four(n + 4);
    Pow2Four(n + 8);
    Pow2Four(n + 12);
  }

  lemma Pow2Four(n: nat)
    ensures Pow2(n + 4) == 16 * Pow2(n)
  {
    assert Pow2(n + 4) == 2 * Pow2(n + 3) && Pow2(n + 2) == 2 * Pow2(n + 1);
  }

  datatype NumericError = NumericOutOfRange

  /** `value * 10^(from - to)`, rounded half away from zero. */
  function Rescaled(value: int, from: int, to: int): int {
    if to <= from then value * Pow10(from - to) else RoundedDiv(value, Pow10(to - from))
  }

  /** `r` units of `10^to` are the rounding of `value` units of `10^from`. */
  ghost predicate IsRescaling(r: int, value: int, from: int, to: int) {
    if to <= from then r == value * Pow10(from - to) else Nearest(r, value, Pow10(to - from))
  }

  lemma RescaledIsRescaling(r: int, value: int, from: int, to: int)
    ensures IsRescaling(r, value, from, to) <==> r == Rescaled(value, from, to)
  {
    if to > from {
      RoundedDivIsNearest(value, Pow10(to - from));
      if Nearest(r, value, Pow10(to - from)) {
        NearestIsUnique(r, Rescaled(value, from, to), value, Pow10(to - from));
      }
    }
  }

  // ---------------------------------------------------------------- adjustScale

  /** One multiplication, allowed only where its result stays within the limits. */
  method TimesTen(val: int, minLimit: int, maxLimit: int) returns (r: int)
    requires minLimit <= val * 10 <= maxLimit
    ensures r == val * 10
  {
    r := val * 10;
  }

  /** Cutting one more digit off `v / p`. */
  lemma TruncAgain(v: int, p: int)
    requires p > 0
    ensures TruncDiv(TruncDiv(v, p), 10) == TruncDiv(v, 10 * p)
    ensures Abs(TruncDiv(v, 10 * p)) * 10 <= Abs(v)
    ensures Abs(TruncMod(TruncDiv(v, p), 10)) <= 9
    ensures TruncDiv(v, p) == 0 || (TruncDiv(v, p) > 0 <==> v > 0)
  {
    DivideAgain(Abs(v), p);
    var a, q := Abs(v), Abs(v) / p;
    SmallerQuotient(a, p);
  }

  lemma SmallerQuotient(a: nat, p: int)
    requires p > 0
    ensures 0 <= a / p <= a
  {
    var q, r := a / p, a % p;
    SameSign(q, p - 1);
    assert q * (p - 1) == p * q - q && a == p * q + r;
  }

  /**
    The scale-down half of adjustScale: digits go one at a time, the last one decides the rounding. `cmin`, `cmax`
    bound the type the computation runs in, and every value assigned stays in it.
   */
  method DropDigits(value: int, digits: nat, cmin: int, cmax: int) returns (val: int)
    requires digits > 0 && cmin <= value <= cmax && cmin < 0 < cmax
    ensures val == RoundedDiv(value, Pow10(digits)) && cmin <= val <= cmax
  {
    var scale, fraction := digits, 0;
    val := value;
    while scale > 0
      invariant 0 <= scale <= digits
      invariant val == TruncDiv(value, Pow10(digits - scale)) && cmin <= val <= cmax
      invariant scale == 0 ==> fraction == TruncMod(TruncDiv(value, Pow10(digits - 1)), 10)
    {
      TruncAgain(value, Pow10(digits - scale));
      if scale == 1 {
        fraction := TruncMod(val, 10);
      }
      val := TruncDiv(val, 10);
      scale := scale - 1;
    }
    RoundsByFraction(value, digits);
    if fraction > 4 {
      val := val + 1;
    } else if fraction < -4 {
      val := val - 1;
    }
  }

  /** The scale-up half of adjustScale: the limits are checked before and after every multiplication. */
  method AppendZeros(value: int, digits: nat, minLimit: int, maxLimit: int) returns (r: Result<int, NumericError>)
    requires digits > 0 && minLimit < 0 < maxLimit
    ensures var exact := value * Pow10(digits);
            r == if minLimit <= exact <= maxLimit then Ok(exact) else Err(NumericOutOfRange)
  {
    var scale, val := -(digits as int), value;
    while scale < 0
      invariant -(digits as int) <= scale <= 0
      invariant val == value * Pow10(scale + digits)
      invariant scale == 0 ==> minLimit <= val <= maxLimit
    {
      if val > TruncDiv(maxLimit, 10) || val < TruncDiv(minLimit, 10) {
        TooBigEarly(value, val, scale, -(digits as int), minLimit, maxLimit);
        return Err(NumericOutOfRange);
      }
      assert value * Pow10(scale + 1 + digits) == val * 10 by {
        TensOut(Pow10(scale + digits), value, 0);
      }
      val := TimesTen(val, minLimit, maxLimit);
      if val > maxLimit || val < minLimit {
        return Err(NumericOutOfRange);
      }
      scale := scale + 1;
    }
    r := Ok(val);
  }

  /** adjustScale; its throw is NumericOutOfRange. */
  method AdjustScale(value: int, scaleDiff: int, minLimit: int, maxLimit: int, cmin: int, cmax: int)
    returns (r: Result<int, NumericError>)
    requires cmin <= minLimit < 0 < maxLimit <= cmax && cmin <= value <= cmax
    ensures scaleDiff >= 0 ==> r.Ok? && Nearest(r.value, value, Pow10(scaleDiff))
    ensures scaleDiff < 0 ==>
      (var exact := value * Pow10(-scaleDiff);
       r == if minLimit <= exact <= maxLimit then Ok(exact) else Err(NumericOutOfRange))
    ensures r.Ok? ==> cmin <= r.value <= cmax
  {
    r := Ok(value);
    assert Pow10(0) == 1;
    if scaleDiff > 0 {
      var val := DropDigits(value, scaleDiff, cmin, cmax);
      RoundedDivIsNearest(value, Pow10(scaleDiff));
      r := Ok(val);
    } else if scaleDiff < 0 {
      r := AppendZeros(value, -scaleDiff, minLimit, maxLimit);
    }
  }

  /** The two-step rounding is the one-step rounding. */
  lemma RoundsByFraction(value: int, scale: int)
    requires scale > 0
    ensures var q, f := TruncDiv(value, Pow10(scale)), TruncMod(TruncDiv(value, Pow10(scale - 1)), 10);
            && RoundedDiv(value, Pow10(scale)) == q + (if f > 4 then 1 else if f < -4 then -1 else 0)
            && (f > 4 ==> q + 1 <= value) && (f < -4 ==> q - 1 >= value)
  {
    var p := Pow10(scale - 1);
    LastDigitRounds(Abs(value), p);
    DivideAgain(Abs(value), p);
    SmallerQuotient(Abs(value), p);
  }

  /** Once a value is beyond a tenth of a limit, every further power of ten is beyond the limit. */
  lemma TooBigEarly(value: int, val: int, scale: int, scaleDiff: int, minLimit: int, maxLimit: int)
    requires scaleDiff <= scale < 0 && minLimit < 0 < maxLimit
    requires val == value * Pow10(scale - scaleDiff)
    requires val > TruncDiv(maxLimit, 10) || val < TruncDiv(minLimit, 10)
    ensures var exact := value * Pow10(-scaleDiff); exact > maxLimit || exact < minLimit
  {
    var more := Pow10(-scale - 1);
    Pow10Adds(scale - scaleDiff, -scale);
    assert Pow10(-scale) == 10 * more;
    var exact := value * Pow10(-scaleDiff);
    assert exact == val * (10 * more) by {
      ProductAssociates(value, Pow10(scale - scaleDiff), Pow10(-scale));
    }
    Grows(val * 10, more);
    ProductAssociates(val, 10, more);
  }

  lemma ProductAssociates(a: int, b: int, c: int)
    ensures a * (b * c) == (a * b) * c
  {
  }

  lemma Grows(a: int, m: int)
    requires m >= 1
    ensures a > 0 ==> a * m >= a
    ensures a < 0 ==> a * m <= a
  {
    SameSign(m - 1, a);
    assert (m - 1) * a == a * m - a;
  }

  // ---------------------------------------------------------------- numberToNumber

  /** The conversion as a value. */
  function Converted(value: int, fromScale: int, target: IntType, toScale: int): Result<int, NumericError> {
    var exact := Rescaled(value, fromScale, toScale);
    if Fits(exact, target) then Ok(exact) else Err(NumericOutOfRange)
  }

  /** What a conversion promises: the rounded decimal if it fits the target type, and an error only if it does not. */
  ghost predicate IsConversion(r: Result<int, NumericError>, value: int, fromScale: int, target: IntType, toScale: int)
  {
    match r
    case Ok(v) => IsRescaling(v, value, fromScale, toScale) && Fits(v, target)
    case Err(_) => forall exact :: IsRescaling(exact, value, fromScale, toScale) ==> !Fits(exact, target)
  }

  /** There is exactly one such result. */
  lemma ConversionIsConverted(r: Result<int, NumericError>, value: int, fromScale: int, target: IntType, toScale: int)
    ensures IsConversion(r, value, fromScale, target, toScale) <==> r == Converted(value, fromScale, target, toScale)
  {
    var exact := Rescaled(value, fromScale, toScale);
    RescaledIsRescaling(exact, value, fromScale, toScale);
    assert IsRescaling(exact, value, fromScale, toScale);
    match r
    case Ok(v) => RescaledIsRescaling(v, value, fromScale, toScale);
    case Err(e) =>
      assert e == NumericOutOfRange;
      forall other | IsRescaling(other, value, fromScale, toScale) ensures other == exact {
        RescaledIsRescaling(other, value, fromScale, toScale);
      }
  }

  /**
    numberToNumber<To, From>: succeeds exactly when the rounded decimal fits the target type, and then returns it.
   */
  method NumberToNumber(value: int, from: IntType, fromScale: int, target: IntType, toScale: int)
    returns (r: Result<int, NumericError>)
    requires Fits(value, from)
    ensures IsConversion(r, value, fromScale, target, toScale)
  {
    var scaleDiff := toScale - fromScale;
    var compute := Wider(from, target);
    var result := value;
    assert Pow10(0) == 1;
    if scaleDiff != 0 {
      var adjusted := AdjustScale(result, scaleDiff, MinOf(target), MaxOf(target), MinOf(compute), MaxOf(compute));
      if adjusted.Err? {
        return adjusted;
      }
      result := adjusted.value;
    }
    assert IsRescaling(result, value, fromScale, toScale);
    if result < MinOf(target) || result > MaxOf(target) {
      forall exact | IsRescaling(exact, value, fromScale, toScale) ensures exact == result {
        RescaledIsRescaling(exact, value, fromScale, toScale);
        RescaledIsRescaling(result, value, fromScale, toScale);
      }
      return Err(NumericOutOfRange);
    }
    r := Ok(result);
  }

  /** Rescaling through INT64 and then narrowing at the same scale is one conversion; nothing is rounded twice. */
  lemma ChainedIsOne(value: int, fromScale: int, target: IntType, toScale: int)
    ensures Converted(value, fromScale, target, toScale)
         == match Converted(value, fromScale, Int64, toScale)
            case Err(e) => Err(e)
            case Ok(mid) => Converted(mid, toScale, target, toScale)
  {
    var exact := Rescaled(value, fromScale, toScale);
    assert Rescaled(exact, toScale, toScale) == exact * Pow10(0) == exact;
  }

  /** Going to a finer scale and back changes nothing. */
  lemma FinerAndBack(value: int, scale: int, finer: int)
    requires finer <= scale
    ensures Rescaled(Rescaled(value, scale, finer), finer, scale) == value
  {
    RoundedDivExact(value, Pow10(scale - finer));
  }
}
