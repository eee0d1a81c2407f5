/** Decimal literals, and the one literal that prints a number. */
module Literals {
  import opened Decimal
  import opened DigitStrings

  /** `-?D*(.D*)?` */
  datatype Literal = Literal(negative: bool, whole: string, dotted: bool, frac: string)

  predicate WellFormed(d: Literal) {
    AllDigits(d.whole) && AllDigits(d.frac) && |d.whole + d.frac| > 0 && (d.dotted || d.frac == [])
  }

  function Minus(negative: bool): string { if negative then "-" else "" }

  function Render(d: Literal): string {
    Minus(d.negative) + d.whole + if d.dotted then "." + d.frac else ""
  }

  /** The decimal a literal denotes, in units of `10^LiteralScale`. */
  function Numerator(d: Literal): int {
    var n := Value(d.whole) * Pow10(|d.frac|) + Value(d.frac);
    if d.negative then -n else n
  }

  function LiteralScale(d: Literal): int { 0 - |d.frac| }

  lemma LiteralValue(d: Literal)
    ensures Numerator(d) == if d.negative then -Value(d.whole + d.frac) else Value(d.whole + d.frac)
  {
    ValueConcat(d.whole, d.frac);
  }

  lemma Negated(n: int, p: int)
    ensures -(n * p) == -n * p
  {
  }

  // ---------------------------------------------------------------- printing a number

  /** Whole units for a scale from zero up, and `-scale` digits behind the dot below. */
  function Places(scale: int): nat { if scale < 0 then -scale else 0 }

  function Units(v: int, scale: int): int { if scale > 0 then v * Pow10(scale) else v }

  /**
    `d` prints `v` units of `10^scale`: a minus exactly for negative numbers, a dot exactly for negative scales with
    that many digits behind it, digits before it without a superfluous zero, and just this value. Zero at a positive
    scale keeps the zeros of the scale.
   */
  ghost predicate Prints(d: Literal, v: int, scale: int) {
    && WellFormed(d) && Numerator(d) == Units(v, scale)
    && (d.negative <==> v < 0) && (d.dotted <==> scale < 0) && |d.frac| == Places(scale)
    && if v == 0 && scale > 0 then |d.whole| == scale + 1 else Shortest(d.whole)
  }

  ghost predicate IsTextOf(text: string, v: int, scale: int) {
    exists d :: Prints(d, v, scale) && Render(d) == text
  }

  lemma PartsDetermined(w: int, f: int, w': int, f': int, p: int)
    requires 0 <= f < p && 0 <= f' < p && w * p + f == w' * p + f'
    ensures w == w' && f == f'
  {
    assert w * p == p * w && w' * p == p * w';
    DivisionIs(w * p + f, p, w, f);
    DivisionIs(w * p + f, p, w', f');
  }

  /** Nothing else prints it. */
  lemma PrintsOnce(d: Literal, d': Literal, v: int, scale: int)
    requires Prints(d, v, scale) && Prints(d', v, scale)
    ensures d == d'
  {
    ValueBelow(d.frac);
    ValueBelow(d'.frac);
    PartsDetermined(Value(d.whole), Value(d.frac), Value(d'.whole), Value(d'.frac), Pow10(|d.frac|));
    SameDigits(d.frac, d'.frac);
    if v == 0 && scale > 0 {
      SameDigits(d.whole, d'.whole);
    } else {
      ShortestIsDigits(d.whole);
      ShortestIsDigits(d'.whole);
    }
  }
}
