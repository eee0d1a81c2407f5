/** numberToString. */
module NumberText {
  import opened Collections
  import opened Decimal
  import opened DigitStrings
  import opened Literals
  import opened NumericConverter

  function Reverse(s: string): (r: string)
    ensures |r| == |s|
  {
    if s == [] then [] else Reverse(s[1..]) + [s[0]]
  }

  lemma {:induction false} ReverseConcat(a: string, b: string)
    ensures Reverse(a + b) == Reverse(b) + Reverse(a)
  {
    if a == [] {
      assert a + b == b;
    } else {
      assert (a + b)[1..] == a[1..] + b;
      ReverseConcat(a[1..], b);
    }
  }

  /** Reversing a string swaps its reversed parts. */
  lemma ReverseParts(low: string, high: string)
    ensures Reverse(high) == Reverse(low + high)[..|high|]
    ensures Reverse(low) == Reverse(low + high)[|high|..]
  {
    ReverseConcat(low, high);
  }

  // ---------------------------------------------------------------- the printed text

  /** Digits `ds` of a number counted in units of `10^scale`. */
  function Layout(sign: string, ds: string, scale: int): string {
    if scale >= 0 then sign + ds + Zeros(scale)
    else if -scale >= |ds| then sign + "0." + Zeros(-scale - |ds|) + ds
    else sign + ds[..|ds| + scale] + "." + ds[|ds| + scale..]
  }

  /** The text of `v` units of `10^scale`. */
  function Printed(v: int, scale: int): string { Layout(Minus(v < 0), Digits(Abs(v)), scale) }

  /** The literal laid out. */
  function LaidOut(negative: bool, ds: string, scale: int): Literal {
    if scale >= 0 then Literal(negative, ds + Zeros(scale), false, "")
    else if -scale >= |ds| then Literal(negative, "0", true, Zeros(-scale - |ds|) + ds)
    else Literal(negative, ds[..|ds| + scale], true, ds[|ds| + scale..])
  }

  lemma LaidOutIsLiteral(negative: bool, ds: string, scale: int)
    requires AllDigits(ds) && ds != []
    ensures WellFormed(LaidOut(negative, ds, scale))
    ensures LiteralScale(LaidOut(negative, ds, scale)) == if scale < 0 then scale else 0
    ensures Render(LaidOut(negative, ds, scale)) == Layout(Minus(negative), ds, scale)
  {
    var sign := Minus(negative);
    if scale >= 0 {
      ZerosValue(scale);
      Regroup(sign, ds, Zeros(scale));
      assert sign + (ds + Zeros(scale)) + "" == sign + (ds + Zeros(scale));
    } else if -scale >= |ds| {
      var zeros := Zeros(-scale - |ds|);
      ZerosValue(-scale - |ds|);
      assert sign + "0" + ("." + (zeros + ds)) == sign + "0." + zeros + ds;
    } else {
      SplitAt(ds, |ds| + scale);
      PartsAreDigits(ds[..|ds| + scale], ds[|ds| + scale..]);
      Regroup(sign + ds[..|ds| + scale], ".", ds[|ds| + scale..]);
    }
  }

  lemma LaidOutValue(negative: bool, ds: string, scale: int)
    ensures var n := if scale > 0 then Value(ds) * Pow10(scale) else Value(ds);
            Numerator(LaidOut(negative, ds, scale)) == if negative then -n else n
  {
    LiteralValue(LaidOut(negative, ds, scale));
    if scale >= 0 {
      TrailingZeros(ds, scale);
    } else if -scale >= |ds| {
      LeadingZeros(-scale - |ds|, ds);
    } else {
      SplitAt(ds, |ds| + scale);
    }
  }

  lemma TrailingZeros(ds: string, n: nat)
    ensures Value((ds + Zeros(n)) + "") == if n > 0 then Value(ds) * Pow10(n) else Value(ds)
  {
    ZerosValue(n);
    ValueConcat(ds, Zeros(n));
    assert (ds + Zeros(n)) + "" == ds + Zeros(n);
  }

  lemma LeadingZeros(n: nat, ds: string)
    ensures Value("0" + (Zeros(n) + ds)) == Value(ds)
  {
    ZerosValue(n);
    ValueConcat(Zeros(n), ds);
    ValueConcat("0", Zeros(n) + ds);
    assert Value("0") == 0;
  }

  lemma LaidOutPrints(v: int, scale: int)
    ensures Prints(LaidOut(v < 0, Digits(Abs(v)), scale), v, scale)
    ensures Render(LaidOut(v < 0, Digits(Abs(v)), scale)) == Printed(v, scale)
  {
    var ds := Digits(Abs(v));
    DigitsValue(Abs(v));
    DigitsAreShortest(Abs(v));
    LaidOutIsLiteral(v < 0, ds, scale);
    LaidOutValue(v < 0, ds, scale);
    if scale > 0 {
      Negated(Abs(v), Pow10(scale));
    }
  }

  /** The text printed is the one rendered by a literal that prints the number, and no other text is. */
  lemma PrintedExactly(v: int, scale: int, text: string)
    ensures text == Printed(v, scale) <==> IsTextOf(text, v, scale)
  {
    var printed := LaidOut(v < 0, Digits(Abs(v)), scale);
    LaidOutPrints(v, scale);
    forall d | Prints(d, v, scale) ensures d == printed {
      PrintsOnce(d, printed, v, scale);
    }
  }

  // ---------------------------------------------------------------- numberToString

  /** `for (int i = hi - 1; i >= lo; --i) result += buffer[i];` */
  method AppendDown(result: string, buffer: array<char>, hi: nat, lo: nat) returns (r: string)
    requires lo <= hi <= buffer.Length
    ensures r == result + Reverse(buffer[lo..hi])
  {
    r := result;
    var i := hi - 1;
    while i >= lo
      invariant lo - 1 <= i < hi
      invariant r == result + Reverse(buffer[i + 1..hi])
    {
      assert buffer[i..hi][1..] == buffer[i + 1..hi];
      r := r + [buffer[i]];
      i := i - 1;
    }
  }

  lemma TenToThe19()
    ensures Pow10(19) == 10_000_000_000_000_000_000
  {
    assert Pow10(4) == 10000;
    assert Pow10(8) == 10000 * 10000 by { Pow10Adds(4, 4); }
    assert Pow10(16) == 10000_0000 * 10000_0000 by { Pow10Adds(8, 8); }
    assert Pow10(3) == 1000;
    Pow10Adds(16, 3);
  }

  /** Digits not yet written, once at least one has been. */
  function MoreDigits(left: nat): string { if left == 0 then [] else Digits(left) }

  lemma OneMoreDigit(left: nat, before: string)
    ensures Digits(left) + Reverse(before) == MoreDigits(left / 10) + Reverse(before + [DigitChar(left % 10)])
  {
    var c := DigitChar(left % 10);
    ReverseConcat(before, [c]);
    var more, written := MoreDigits(left / 10), Reverse(before);
    assert Digits(left) == more + [c];
    Regroup(more, [c], written);
    assert Reverse(before + [c]) == [c] + written;
  }

  /** A number of at most `k` digits. */
  predicate Within(n: nat, k: nat) { n < Pow10(k) }

  lemma OneDigitLess(n: nat, k: nat)
    requires Within(n, k)
    ensures k == 0 ==> n == 0
    ensures k > 0 ==> Within(n / 10, k - 1)
  {
  }

  method PutDigit(buffer: array<char>, digitCount: nat, digit: nat)
    requires digitCount < buffer.Length && digit < 10
    modifies buffer
    ensures buffer[..digitCount + 1] == old(buffer[..digitCount]) + [DigitChar(digit)]
  {
    buffer[digitCount] := DigitChar(digit);
  }

  /** The do/while that fills the buffer from the least significant digit. */
  method FillDigits(unsigned: nat, buffer: array<char>) returns (digitCount: nat)
    requires Within(unsigned, 19) && buffer.Length == 64
    modifies buffer
    ensures digitCount <= 19 && Reverse(buffer[..digitCount]) == Digits(unsigned)
  {
    OneMoreDigit(unsigned, []);
    OneDigitLess(unsigned, 19);
    assert buffer[..0] == [];
    PutDigit(buffer, 0, unsigned % 10);
    digitCount := 1;
    var left: nat := unsigned / 10;
    while left > 0
      invariant 1 <= digitCount <= 19 && Within(left, 19 - digitCount)
      invariant Digits(unsigned) == MoreDigits(left) + Reverse(buffer[..digitCount])
    {
      OneDigitLess(left, 19 - digitCount);
      OneMoreDigit(left, buffer[..digitCount]);
      PutDigit(buffer, digitCount, left % 10);
      digitCount := digitCount + 1;
      left := left / 10;
    }
  }

  /** The digits in the buffer, most significant first, with the zeros and the point the scale asks for. */
  method LayOut(sign: string, buffer: array<char>, digitCount: nat, scale: int) returns (result: string)
    requires digitCount <= buffer.Length
    ensures result == Layout(sign, Reverse(buffer[..digitCount]), scale)
  {
    ghost var all := buffer[..digitCount];
    result := sign;
    if scale >= 0 {
      result := AppendDown(result, buffer, digitCount, 0);
      result := result + Zeros(scale);
    } else {
      var decimalPlaces := -scale;
      if decimalPlaces >= digitCount {
        result := result + "0.";
        result := result + Zeros(decimalPlaces - digitCount);
        result := AppendDown(result, buffer, digitCount, 0);
      } else {
        SplitAt(all, decimalPlaces);
        ReverseParts(all[..decimalPlaces], all[decimalPlaces..]);
        assert all[decimalPlaces..] == buffer[decimalPlaces..digitCount];
        assert all[..decimalPlaces] == buffer[..decimalPlaces];
        result := AppendDown(result, buffer, digitCount, decimalPlaces);
        result := result + ".";
        result := AppendDown(result, buffer, decimalPlaces, 0);
      }
    }
  }

  /** numberToString; every signed step of taking the magnitude stays within the type, also for the smallest value. */
  method NumberToString(value: int, scale: int, t: IntType) returns (result: string)
    requires Fits(value, t)
    ensures result == Printed(value, scale)
    ensures IsTextOf(result, value, scale)
  {
    PrintedExactly(value, scale, Printed(value, scale));
    var buffer := new char[64];
    var isNegative := value < 0;
    var magnitude := if value == MinOf(t) then -(value + 1) else if isNegative then -value else value;
    assert Fits(magnitude, t) && Fits(value + if value == MinOf(t) then 1 else 0, t);
    var unsigned := if value == MinOf(t) then magnitude + 1 else magnitude;
    TenToThe19();
    var digitCount := FillDigits(unsigned, buffer);
    result := if isNegative then "-" else "";
    result := LayOut(result, buffer, digitCount, scale);
  }
}
