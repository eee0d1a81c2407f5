/** What a text stores in an integer column, and which texts store anything. */
module BoundText {
  import opened Collections
  import opened Decimal
  import opened DigitStrings
  import opened Literals
  import opened NumericConverter
  import opened NumberText

  datatype Column = Column(intType: IntType, scale: int)

  datatype BindError = IndexOutOfRange | OutOfRange | ConversionError(text: string)

  // ---------------------------------------------------------------- from_chars and the dot

  predicate SignedDigits(s: string) {
    if s != [] && s[0] == '-' then |s| > 1 && AllDigits(s[1..]) else s != [] && AllDigits(s)
  }

  function SignedValue(s: string): int {
    if s != [] && s[0] == '-' then -Value(s[1..]) else Value(s)
  }

  /** std::from_chars on the whole string: an optional minus, then digits, in the range of 64 bits. */
  function FromChars(s: string): Option<int> {
    if SignedDigits(s) && Fits(SignedValue(s), Int64) then Some(SignedValue(s)) else None
  }

  /** find_last_of('.') */
  function LastDot(s: string): (r: Option<nat>)
    ensures r.Some? ==> r.value < |s| && s[r.value] == '.' && '.' !in s[r.value + 1..]
    ensures r.None? ==> '.' !in s
  {
    if s == [] then None
    else if s[|s| - 1] == '.' then Some(|s| - 1)
    else LastDot(s[..|s| - 1])
  }

  lemma {:induction false} LastDotIs(a: string, b: string)
    requires '.' !in b
    ensures LastDot(a + "." + b) == Some(|a|)
  {
    var s := a + "." + b;
    if b != [] {
      assert s[..|s| - 1] == a + "." + b[..|b| - 1];
      LastDotIs(a, b[..|b| - 1]);
      assert s[|s| - 1] == b[|b| - 1];
    }
  }

  /** How many digits a string starts with. */
  function DigitRun(s: string): nat {
    if s != [] && IsDigit(s[0]) then 1 + DigitRun(s[1..]) else 0
  }

  lemma {:induction false} DigitRunAll(s: string)
    requires AllDigits(s)
    ensures DigitRun(s) == |s|
  {
    if s != [] {
      DigitRunAll(s[1..]);
    }
  }

  function Erased(text: string): string {
    match LastDot(text)
    case None => text
    case Some(p) => text[..p] + text[p + 1..]
  }

  function ScaleOf(text: string): int {
    match LastDot(text)
    case None => 0
    case Some(p) => 0 - DigitRun(text[p + 1..])
  }

  /** The first half of the integer branch: digits after the last dot are counted and the dot is erased. */
  method ScanText(value: string) returns (strValue: string, scale: int)
    ensures strValue == Erased(value) && scale == ScaleOf(value)
  {
    strValue, scale := value, 0;
    var dotPos := LastDot(value);
    if dotPos.Some? {
      var dot := dotPos.value;
      var pos := dot + 1;
      while pos < |strValue|
        invariant dot < pos <= |value| && scale == dot + 1 - pos
        invariant DigitRun(value[dot + 1..]) == DigitRun(value[pos..]) - scale
      {
        if value[pos] < '0' || value[pos] > '9' {
          break;
        }
        assert value[pos..][1..] == value[pos + 1..];
        scale := scale - 1;
        pos := pos + 1;
      }
      strValue := value[..dot] + value[dot + 1..];
    }
  }

  /** What setString stores in an integer column: the whole text is one number, converted once. */
  function BindText(text: string, column: Column): Result<int, BindError> {
    match FromChars(Erased(text))
    case None => Err(ConversionError(Erased(text)))
    case Some(v) =>
      match Converted(v, ScaleOf(text), column.intType, column.scale)
      case Ok(stored) => Ok(stored)
      case Err(_) => Err(OutOfRange)
  }

  // ---------------------------------------------------------------- decimal literals

  lemma NoDots(s: string)
    requires AllDigits(s)
    ensures '.' !in s && '-' !in s
  {
  }

  lemma SignedParts(negative: bool, ds: string)
    requires AllDigits(ds) && ds != []
    ensures var s := Minus(negative) + ds;
            SignedDigits(s) && SignedValue(s) == (if negative then -Value(ds) else Value(ds))
  {
    if negative {
      assert (Minus(negative) + ds)[1..] == ds;
    } else {
      assert Minus(negative) + ds == ds;
      assert ds[0] in ds;
    }
  }

  lemma ScanLiteral(d: Literal)
    requires WellFormed(d)
    ensures ScaleOf(Render(d)) == LiteralScale(d)
    ensures Erased(Render(d)) == Minus(d.negative) + (d.whole + d.frac)
  {
    NoDots(d.whole);
    NoDots(d.frac);
    var head := Minus(d.negative) + d.whole;
    Regroup(Minus(d.negative), d.whole, d.frac);
    if d.dotted {
      ScanDotted(head, d.frac);
      Regroup(head, ".", d.frac);
    } else {
      assert head + "" == head && head + d.frac == head;
      assert '.' !in head;
    }
  }

  lemma ScanDotted(head: string, frac: string)
    requires AllDigits(frac)
    ensures ScaleOf(head + "." + frac) == 0 - |frac| && Erased(head + "." + frac) == head + frac
  {
    NoDots(frac);
    LastDotIs(head, frac);
    DigitRunAll(frac);
    assert (head + "." + frac)[|head| + 1..] == frac;
    assert (head + "." + frac)[..|head|] == head;
  }

  /**
    Text binding rounds once: a literal whose digits fit 64 bits stores its decimal, rounded half away from zero to
    the column's scale, and is refused exactly when that is out of the column's range.
   */
  lemma LiteralRoundsOnce(d: Literal, column: Column)
    requires WellFormed(d)
    ensures !Fits(Numerator(d), Int64) ==> BindText(Render(d), column) == Err(ConversionError(Erased(Render(d))))
    ensures forall r :: Fits(Numerator(d), Int64) && IsRescaling(r, Numerator(d), LiteralScale(d), column.scale) ==>
              BindText(Render(d), column) == if Fits(r, column.intType) then Ok(r) else Err(OutOfRange)
    ensures Fits(Numerator(d), Int64) ==> exists r :: IsRescaling(r, Numerator(d), LiteralScale(d), column.scale)
  {
    BindLiteral(d, column);
    var exact := Rescaled(Numerator(d), LiteralScale(d), column.scale);
    RescaledIsRescaling(exact, Numerator(d), LiteralScale(d), column.scale);
    forall r | IsRescaling(r, Numerator(d), LiteralScale(d), column.scale) ensures r == exact {
      RescaledIsRescaling(r, Numerator(d), LiteralScale(d), column.scale);
    }
  }

  lemma BindLiteral(d: Literal, column: Column)
    requires WellFormed(d)
    ensures FromChars(Erased(Render(d))) == if Fits(Numerator(d), Int64) then Some(Numerator(d)) else None
    ensures ScaleOf(Render(d)) == LiteralScale(d)
  {
    ScanLiteral(d);
    SignedParts(d.negative, d.whole + d.frac);
    ValueConcat(d.whole, d.frac);
  }

  /** The sign may also follow a leading dot; the digits behind it then count as whole units. */
  lemma DotMinus(ds: string, column: Column)
    requires AllDigits(ds) && ds != [] && Fits(-Value(ds), Int64)
    ensures BindText(".-" + ds, column) ==
      match Converted(-Value(ds), 0, column.intType, column.scale)
      case Ok(stored) => Ok(stored)
      case Err(_) => Err(OutOfRange)
  {
    NoDots(ds);
    ScanDotMinus(ds);
    SignedParts(true, ds);
  }

  lemma ScanDotMinus(ds: string)
    requires AllDigits(ds)
    ensures Erased(".-" + ds) == "-" + ds && ScaleOf(".-" + ds) == 0
  {
    NoDots(ds);
    assert '.' !in "-" + ds;
    assert ".-" + ds == [] + "." + ("-" + ds);
    LastDotIs([], "-" + ds);
    assert (".-" + ds)[1..] == "-" + ds;
  }

  ghost predicate IsLiteral(text: string) {
    exists d :: WellFormed(d) && Render(d) == text && Fits(Numerator(d), Int64)
  }

  ghost predicate IsDotMinus(text: string) {
    exists ds :: AllDigits(ds) && ds != [] && text == ".-" + ds && Fits(-Value(ds), Int64)
  }

  function ParsedSign(head: string, dotted: bool, frac: string): Literal {
    if head != [] && head[0] == '-' then Literal(true, head[1..], dotted, frac) else Literal(false, head, dotted, frac)
  }

  /** The texts that are not refused as a conversion error are the literals and the dot-minus forms, no others. */
  lemma AcceptedTexts(text: string)
    ensures FromChars(Erased(text)).Some? <==> IsLiteral(text) || IsDotMinus(text)
  {
    forall d | WellFormed(d) && Render(d) == text && Fits(Numerator(d), Int64) ensures FromChars(Erased(text)).Some? {
      BindLiteral(d, Column(Int64, 0));
    }
    forall ds | AllDigits(ds) && ds != [] && text == ".-" + ds && Fits(-Value(ds), Int64)
      ensures FromChars(Erased(text)).Some?
    {
      ScanDotMinus(ds);
      SignedParts(true, ds);
    }
    if FromChars(Erased(text)).Some? {
      AcceptedHasForm(text);
    }
  }

  lemma AcceptedHasForm(text: string)
    requires FromChars(Erased(text)).Some?
    ensures IsLiteral(text) || IsDotMinus(text)
  {
    match LastDot(text)
    case None =>
      PlainHasForm(text);
    case Some(p) =>
      var head, frac := text[..p], text[p + 1..];
      AroundDot(text, p);
      if head == [] && frac != [] && frac[0] == '-' {
        DotMinusHasForm(frac);
      } else {
        DottedHasForm(head, frac);
      }
  }

  lemma AroundDot(text: string, p: nat)
    requires p < |text| && text[p] == '.'
    ensures text == text[..p] + "." + text[p + 1..]
    ensures text[..p] == [] ==> text[..p] + text[p + 1..] == text[p + 1..]
  {
  }

  lemma DotMinusHasForm(frac: string)
    requires frac != [] && frac[0] == '-' && FromChars(frac).Some?
    ensures IsDotMinus([] + "." + frac)
  {
    var ds := frac[1..];
    assert frac == "-" + ds;
    assert [] + "." + frac == ".-" + ds;
  }

  lemma PlainHasForm(text: string)
    requires FromChars(text).Some?
    ensures IsLiteral(text)
  {
    var d := ParsedSign(text, false, []);
    assert d.whole + d.frac == d.whole;
    assert Render(d) == text;
    LiteralValue(d);
  }

  lemma DottedHasForm(head: string, frac: string)
    requires FromChars(head + frac).Some?
    requires head == [] ==> frac == [] || frac[0] != '-'
    ensures IsLiteral(head + "." + frac)
  {
    var s := head + frac;
    if head != [] && head[0] == '-' {
      var whole := head[1..];
      assert s[1..] == whole + frac && head == "-" + whole;
      PartsFormLiteral(true, whole, frac);
    } else {
      assert s[0] == if head != [] then head[0] else frac[0];
      assert "" + head == head;
      PartsFormLiteral(false, head, frac);
    }
  }

  lemma PartsFormLiteral(negative: bool, whole: string, frac: string)
    requires AllDigits(whole + frac) && |whole + frac| > 0
    requires Fits(if negative then -Value(whole + frac) else Value(whole + frac), Int64)
    ensures IsLiteral((Minus(negative) + whole) + "." + frac)
  {
    var d := Literal(negative, whole, true, frac);
    PartsAreDigits(whole, frac);
    LiteralValue(d);
    Regroup(Minus(negative) + whole, ".", frac);
    assert WellFormed(d) && Fits(Numerator(d), Int64);
  }

  // ---------------------------------------------------------------- round trip

  /**
    Printing and binding undo each other for every value of every integer type: always when the scale is not
    positive, and for a positive scale exactly when the printed whole number still fits 64 bits.
   */
  lemma PrintThenBind(v: int, scale: int, t: IntType)
    requires Fits(v, t)
    ensures BindText(Printed(v, scale), Column(t, scale)) == Ok(v) <==> scale <= 0 || Fits(v * Pow10(scale), Int64)
    ensures scale > 0 && !Fits(v * Pow10(scale), Int64) ==>
              BindText(Printed(v, scale), Column(t, scale)) == Err(ConversionError(Erased(Printed(v, scale))))
  {
    PrintedScans(v, scale);
    StoresWhatScans(Printed(v, scale), v, scale, t);
  }

  lemma StoresWhatScans(text: string, v: int, scale: int, t: IntType)
    requires Fits(v, t)
    requires var n := if scale > 0 then v * Pow10(scale) else v;
             FromChars(Erased(text)) == if Fits(n, Int64) then Some(n) else None
    requires ScaleOf(text) == if scale < 0 then scale else 0
    ensures BindText(text, Column(t, scale)) == Ok(v) <==> scale <= 0 || Fits(v * Pow10(scale), Int64)
    ensures scale > 0 && !Fits(v * Pow10(scale), Int64) ==>
              BindText(text, Column(t, scale)) == Err(ConversionError(Erased(text)))
  {
    BackToValue(v, scale);
  }

  lemma BackToValue(v: int, scale: int)
    ensures scale > 0 ==> Rescaled(v * Pow10(scale), 0, scale) == v
    ensures Rescaled(v, scale, scale) == v && Rescaled(v, 0, 0) == v
  {
    if scale > 0 {
      RoundedDivExact(v, Pow10(scale));
    }
    assert v * Pow10(0) == v;
  }

  /** What scanning a printed number finds. */
  lemma PrintedScans(v: int, scale: int)
    ensures var text, n := Printed(v, scale), if scale > 0 then v * Pow10(scale) else v;
            && FromChars(Erased(text)) == (if Fits(n, Int64) then Some(n) else None)
            && ScaleOf(text) == if scale < 0 then scale else 0
  {
    LaidOutPrints(v, scale);
    BindLiteral(LaidOut(v < 0, Digits(Abs(v)), scale), Column(Int64, scale));
  }

  /** One unit of 10^19 prints as twenty digits, more than 64 bits hold, and is refused when bound back. */
  lemma PositiveScaleRefused()
    ensures BindText(Printed(1, 19), Column(Int16, 19)) == Err(ConversionError(Erased(Printed(1, 19))))
  {
    PrintThenBind(1, 19, Int16);
    TooManyDigits();
  }

  lemma TooManyDigits()
    ensures !Fits(1 * Pow10(19), Int64)
  {
    TenToThe19();
  }
}
