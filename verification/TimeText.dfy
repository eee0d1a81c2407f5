/** Times of day as text: stringToTime and opaqueTimeToString. */
module TimeText {
  import opened Collections
  import opened Decimal
  import opened DigitStrings

  const HOUR_TICKS := 36_000_000
  const MINUTE_TICKS := 600_000
  const SECOND_TICKS := 10_000
  const DAY_TICKS := 864_000_000

  datatype TimeError = ConversionError | InvalidTime

  /** What the pattern captures. */
  datatype Captured = Captured(hours: string, minutes: string, seconds: string, fraction: Option<string>)

  // ---------------------------------------------------------------- the pattern

  /** `\s` in the classic locale. */
  predicate IsSpace(c: char): (r: bool)
    ensures r <==> c as int in {9, 10, 11, 12, 13, 32}
  {
    c == ' ' || '\t' <= c <= '\r'
  }

  predicate AllSpace(s: string) { forall c :: c in s ==> IsSpace(c) }

  function Skip(s: string): (r: string)
    ensures r == [] || !IsSpace(r[0])
  {
    if s != [] && IsSpace(s[0]) then Skip(s[1..]) else s
  }

  /** `\s*` then one given character. */
  function Expect(s: string, c: char): Option<string> {
    var r := Skip(s);
    if r != [] && r[0] == c then Some(r[1..]) else None
  }

  /** `\s*([0-9]{2})`: the two digits and what follows. */
  function TwoDigits(s: string): Option<(string, string)> {
    var r := Skip(s);
    if |r| >= 2 && IsDigit(r[0]) && IsDigit(r[1]) then Some((r[..2], r[2..])) else None
  }

  function DigitPrefix(s: string): (n: nat)
    ensures n <= |s| && AllDigits(s[..n]) && (n == |s| || !IsDigit(s[n]))
  {
    if s != [] && IsDigit(s[0]) then
      assert s[1..][..DigitPrefix(s[1..])] == s[1..1 + DigitPrefix(s[1..])];
      1 + DigitPrefix(s[1..])
    else 0
  }

  /** `(?:\s*\.\s*([0-9]{1,4}))?\s*$` */
  function Tail(s: string): (t: Option<Option<string>>)
    ensures t.Some? && t.value.Some? ==> 1 <= |t.value.value| <= 4
  {
    if Skip(s) == [] then Some(None)
    else
      match Expect(s, '.')
      case None => None
      case Some(after) =>
        var r := Skip(after);
        var n := DigitPrefix(r);
        if 1 <= n <= 4 && Skip(r[n..]) == [] then Some(Some(r[..n])) else None
  }

  function Match(s: string): (m: Option<Captured>)
    ensures m.Some? && m.value.fraction.Some? ==> 1 <= |m.value.fraction.value| <= 4
  {
    match TwoDigits(s)
    case None => None
    case Some((hours, s1)) =>
      match Expect(s1, ':')
      case None => None
      case Some(s2) =>
        match TwoDigits(s2)
        case None => None
        case Some((minutes, s3)) =>
          match Expect(s3, ':')
          case None => None
          case Some(s4) =>
            match TwoDigits(s4)
            case None => None
            case Some((seconds, s5)) =>
              match Tail(s5)
              case None => None
              case Some(fraction) => Some(Captured(hours, minutes, seconds, fraction))
  }

  // ---------------------------------------------------------------- the grammar

  /** The blanks between the captured parts. */
  datatype Blanks = Blanks(b0: string, b1: string, b2: string, b3: string,
                           b4: string, b5: string, b6: string, b7: string)

  predicate BlankAll(b: Blanks) {
    && AllSpace(b.b0) && AllSpace(b.b1) && AllSpace(b.b2) && AllSpace(b.b3)
    && AllSpace(b.b4) && AllSpace(b.b5) && AllSpace(b.b6) && AllSpace(b.b7)
  }

  predicate Pair(s: string) { |s| == 2 && AllDigits(s) }

  predicate WellFormed(c: Captured) {
    && Pair(c.hours) && Pair(c.minutes) && Pair(c.seconds)
    && (c.fraction.Some? ==> 1 <= |c.fraction.value| <= 4 && AllDigits(c.fraction.value))
  }

  function WrittenTail(b: Blanks, fraction: Option<string>): string {
    match fraction
    case None => b.b7
    case Some(f) => b.b5 + ("." + (b.b6 + (f + b.b7)))
  }

  /** A text of the pattern, part by part. */
  function Written(b: Blanks, c: Captured): string {
    b.b0 + (c.hours + (b.b1 + (":" +
      (b.b2 + (c.minutes + (b.b3 + (":" +
        (b.b4 + (c.seconds + WrittenTail(b, c.fraction))))))))))
  }

  lemma {:induction false} SkipBlank(b: string, s: string)
    requires AllSpace(b)
    ensures Skip(b + s) == Skip(s)
  {
    if b == [] {
      assert b + s == s;
    } else {
      assert b[0] in b;
      assert (b + s)[1..] == b[1..] + s;
      SkipBlank(b[1..], s);
    }
  }

  lemma {:induction false} SkipSplits(s: string) returns (b: string)
    ensures AllSpace(b) && s == b + Skip(s)
  {
    if s != [] && IsSpace(s[0]) {
      var rest := SkipSplits(s[1..]);
      b := [s[0]] + rest;
    } else {
      b := [];
    }
  }

  lemma ExpectWritten(b: string, c: char, s: string)
    requires AllSpace(b) && !IsSpace(c)
    ensures Expect(b + ([c] + s), c) == Some(s)
  {
    SkipBlank(b, [c] + s);
    assert ([c] + s)[1..] == s;
  }

  lemma TwoDigitsWritten(b: string, d: string, s: string)
    requires AllSpace(b) && Pair(d)
    ensures TwoDigits(b + (d + s)) == Some((d, s))
  {
    SkipBlank(b, d + s);
    assert d[0] in d && d[1] in d;
    assert (d + s)[..2] == d && (d + s)[2..] == s;
  }

  lemma BlankIsSkipped(b: string)
    requires AllSpace(b)
    ensures Skip(b) == []
  {
    SkipBlank(b, []);
    assert b + [] == b;
  }

  lemma {:induction false} DigitPrefixIs(f: string, s: string)
    requires AllDigits(f) && (s == [] || !IsDigit(s[0]))
    ensures DigitPrefix(f + s) == |f|
  {
    if f == [] {
      assert f + s == s;
    } else {
      assert f[0] in f;
      assert (f + s)[1..] == f[1..] + s;
      DigitPrefixIs(f[1..], s);
    }
  }

  lemma TailWritten(b: Blanks, fraction: Option<string>)
    requires BlankAll(b) && (fraction.Some? ==> 1 <= |fraction.value| <= 4 && AllDigits(fraction.value))
    ensures Tail(WrittenTail(b, fraction)) == Some(fraction)
  {
    match fraction
    case None => BlankIsSkipped(b.b7);
    case Some(f) =>
      var after := b.b6 + (f + b.b7);
      ExpectWritten(b.b5, '.', after);
      SkipBlank(b.b5, "." + after);
      assert f[0] in f;
      SkipBlank(b.b6, f + b.b7);
      assert Skip(f + b.b7) == f + b.b7;
      assert b.b7 != [] ==> b.b7[0] in b.b7;
      DigitPrefixIs(f, b.b7);
      assert (f + b.b7)[..|f|] == f && (f + b.b7)[|f|..] == b.b7;
      BlankIsSkipped(b.b7);
  }

  lemma MatchWritten(b: Blanks, c: Captured)
    requires BlankAll(b) && WellFormed(c)
    ensures Match(Written(b, c)) == Some(c)
  {
    var t5 := WrittenTail(b, c.fraction);
    var t4 := b.b4 + (c.seconds + t5);
    var t3 := b.b3 + (":" + t4);
    var t2 := b.b2 + (c.minutes + t3);
    var t1 := b.b1 + (":" + t2);
    TwoDigitsWritten(b.b0, c.hours, t1);
    ExpectWritten(b.b1, ':', t2);
    TwoDigitsWritten(b.b2, c.minutes, t3);
    ExpectWritten(b.b3, ':', t4);
    TwoDigitsWritten(b.b4, c.seconds, t5);
    TailWritten(b, c.fraction);
  }

  lemma ExpectSplits(s: string, c: char) returns (b: string)
    requires Expect(s, c).Some?
    ensures AllSpace(b) && s == b + ([c] + Expect(s, c).value)
  {
    b := SkipSplits(s);
    assert Skip(s) == [c] + Skip(s)[1..];
  }

  lemma TwoDigitsSplits(s: string) returns (b: string)
    requires TwoDigits(s).Some?
    ensures Pair(TwoDigits(s).value.0)
    ensures AllSpace(b) && s == b + (TwoDigits(s).value.0 + TwoDigits(s).value.1)
  {
    b := SkipSplits(s);
    assert Skip(s) == Skip(s)[..2] + Skip(s)[2..];
  }

  lemma TailSplits(s: string) returns (b5: string, b6: string, b7: string)
    requires Tail(s).Some?
    ensures AllSpace(b5) && AllSpace(b6) && AllSpace(b7)
    ensures match Tail(s).value
            case None => s == b7
            case Some(f) => 1 <= |f| <= 4 && AllDigits(f) && s == b5 + ("." + (b6 + (f + b7)))
  {
    b5, b6, b7 := [], [], [];
    if Skip(s) == [] {
      b7 := SkipSplits(s);
      assert b7 + [] == b7;
    } else {
      b5 := ExpectSplits(s, '.');
      b6, b7 := FractionSplits(Expect(s, '.').value);
    }
  }

  /** What follows the dot: blanks, the digits captured, and blanks to the end. */
  lemma FractionSplits(after: string) returns (b6: string, b7: string)
    requires var r := Skip(after); Skip(r[DigitPrefix(r)..]) == []
    ensures AllSpace(b6) && AllSpace(b7)
    ensures var r := Skip(after);
            AllDigits(r[..DigitPrefix(r)]) && after == b6 + (r[..DigitPrefix(r)] + b7)
  {
    b6 := SkipSplits(after);
    var r := Skip(after);
    var n := DigitPrefix(r);
    b7 := SkipSplits(r[n..]);
    assert b7 + [] == b7;
    SplitAt(r, n);
  }

  /** Whatever the pattern matches is written by the grammar. */
  lemma MatchSplits(s: string) returns (b: Blanks)
    requires Match(s).Some?
    ensures BlankAll(b) && WellFormed(Match(s).value) && s == Written(b, Match(s).value)
  {
    var b0 := TwoDigitsSplits(s);
    var s1 := TwoDigits(s).value.1;
    var b1 := ExpectSplits(s1, ':');
    var s2 := Expect(s1, ':').value;
    var b2 := TwoDigitsSplits(s2);
    var s3 := TwoDigits(s2).value.1;
    var b3 := ExpectSplits(s3, ':');
    var s4 := Expect(s3, ':').value;
    var b4 := TwoDigitsSplits(s4);
    var s5 := TwoDigits(s4).value.1;
    var b5, b6, b7 := TailSplits(s5);
    b := Blanks(b0, b1, b2, b3, b4, b5, b6, b7);
  }

  /** `s` is a text of the pattern with these parts. */
  ghost predicate InPattern(s: string, c: Captured) {
    WellFormed(c) && exists b :: BlankAll(b) && s == Written(b, c)
  }

  /** The recogniser accepts exactly the texts of the pattern, and captures their parts. */
  lemma MatchIsPattern(s: string, c: Captured)
    ensures Match(s) == Some(c) <==> InPattern(s, c)
  {
    forall b | BlankAll(b) && WellFormed(c) && s == Written(b, c) ensures Match(s) == Some(c) {
      MatchWritten(b, c);
    }
    if Match(s) == Some(c) {
      var b := MatchSplits(s);
    }
  }

  // ---------------------------------------------------------------- values

  /** A fraction of one to four digits, in ticks of a ten-thousandth of a second. */
  function FractionTicks(fraction: Option<string>): int
    requires fraction.Some? ==> |fraction.value| <= 4
  {
    match fraction
    case None => 0
    case Some(f) => Value(f) * Pow10(4 - |f|)
  }

  /** The ticks a text denotes. */
  function ParsedTicks(s: string): Result<int, TimeError> {
    match Match(s)
    case None => Err(ConversionError)
    case Some(c) =>
      if Value(c.hours) >= 24 || Value(c.minutes) >= 60 || Value(c.seconds) >= 60 then Err(InvalidTime)
      else
        Ok(Value(c.hours) * HOUR_TICKS + Value(c.minutes) * MINUTE_TICKS + Value(c.seconds) * SECOND_TICKS
           + FractionTicks(c.fraction))
  }

  /** The padding loop. */
  method PadFraction(component: string) returns (fractions: nat)
    requires 1 <= |component| <= 4 && AllDigits(component)
    ensures fractions == FractionTicks(Some(component)) && fractions < 10000
    ensures fractions * Pow10(|component|) == Value(component) * Pow10(4)
  {
    ValueBelow(component);
    fractions := Value(component);
    var remaining := 4 - |component|;
    assert Pow10(0) == 1;
    while remaining > 0
      invariant 0 <= remaining <= 4 - |component|
      invariant fractions * Pow10(remaining) == FractionTicks(Some(component))
    {
      TensOut(Pow10(remaining - 1), fractions, 0);
      fractions := fractions * 10;
      remaining := remaining - 1;
    }
    FractionBelow(component);
    FractionOfSecond(component);
  }

  /** `digits / 10^n` of a second, without division. */
  lemma FractionOfSecond(f: string)
    requires |f| <= 4
    ensures FractionTicks(Some(f)) * Pow10(|f|) == Value(f) * Pow10(4)
  {
    var v, p, q := Value(f), Pow10(4 - |f|), Pow10(|f|);
    Pow10Adds(4 - |f|, |f|);
    TimesAgain(v, p, q);
  }

  lemma TimesAgain(v: int, p: int, q: int)
    ensures v * p * q == v * (p * q)
  {
  }

  lemma FractionBelow(f: string)
    requires 1 <= |f| <= 4 && AllDigits(f)
    ensures 0 <= FractionTicks(Some(f)) < 10000
  {
    ValueBelow(f);
    assert Pow10(0) == 1 && Pow10(1) == 10 && Pow10(2) == 100 && Pow10(3) == 1000 && Pow10(4) == 10000;
  }

  /** An accepted time lies within the day: the last check of stringToTime can never fail. */
  lemma AcceptedWithinDay(s: string)
    requires ParsedTicks(s).Ok?
    ensures 0 <= ParsedTicks(s).value < DAY_TICKS
  {
    var b := MatchSplits(s);
    var c := Match(s).value;
    ValueBelow(c.hours);
    ValueBelow(c.minutes);
    ValueBelow(c.seconds);
    if c.fraction.Some? {
      FractionBelow(c.fraction.value);
    }
  }

  /** A clock at `micros` after midnight shows the captured time. */
  ghost predicate Shows(micros: int, c: Captured) {
    && 0 <= micros
    && micros / 3_600_000_000 == Value(c.hours)
    && micros / 60_000_000 % 60 == Value(c.minutes)
    && micros / 1_000_000 % 60 == Value(c.seconds)
    && (c.fraction.None? ==> micros % 1_000_000 == 0)
    && (c.fraction.Some? ==>
          (micros % 1_000_000) * Pow10(|c.fraction.value|) == Value(c.fraction.value) * 1_000_000)
  }

  /** A captured time that no clock shows. */
  ghost predicate OffTheClock(c: Captured) {
    Value(c.hours) > 23 || Value(c.minutes) > 59 || Value(c.seconds) > 59
  }

  lemma ClockShows(h: int, m: int, s: int, f: int)
    requires 0 <= h && 0 <= m < 60 && 0 <= s < 60 && 0 <= f < 10000
    ensures var micros := 100 * (h * HOUR_TICKS + m * MINUTE_TICKS + s * SECOND_TICKS + f);
            && micros / 3_600_000_000 == h && micros / 60_000_000 % 60 == m && micros / 1_000_000 % 60 == s
            && micros % 1_000_000 == 100 * f
  {
    var seconds := h * 3600 + m * 60 + s;
    var micros := 100 * (h * HOUR_TICKS + m * MINUTE_TICKS + s * SECOND_TICKS + f);
    assert micros == 1_000_000 * seconds + 100 * f;
    DivisionIs(micros, 1_000_000, seconds, 100 * f);
    DivisionIs(micros, 60_000_000, h * 60 + m, s * 1_000_000 + 100 * f);
    DivisionIs(micros, 3_600_000_000, h, m * 60_000_000 + s * 1_000_000 + 100 * f);
  }

  /** A text of the pattern means the time a clock shows, and is an error exactly when there is none. */
  lemma TextShows(b: Blanks, c: Captured)
    requires BlankAll(b) && WellFormed(c)
    ensures var parsed := ParsedTicks(Written(b, c));
            if OffTheClock(c) then parsed == Err(InvalidTime) else parsed.Ok? && Shows(100 * parsed.value, c)
  {
    MatchWritten(b, c);
    if !OffTheClock(c) {
      ValueBelow(c.hours);
      ValueBelow(c.minutes);
      ValueBelow(c.seconds);
      FractionShows(c);
      ClockShows(Value(c.hours), Value(c.minutes), Value(c.seconds), FractionTicks(c.fraction));
    }
  }

  lemma FractionShows(c: Captured)
    requires WellFormed(c)
    ensures 0 <= FractionTicks(c.fraction) < 10000
    ensures c.fraction.Some? ==>
              100 * FractionTicks(c.fraction) * Pow10(|c.fraction.value|) == Value(c.fraction.value) * 1_000_000
  {
    if c.fraction.Some? {
      FractionBelow(c.fraction.value);
      FractionOfSecond(c.fraction.value);
      assert Pow10(1) == 10 && Pow10(2) == 100 && Pow10(3) == 1000 && Pow10(4) == 10000;
      TimesAgain(100, FractionTicks(c.fraction), Pow10(|c.fraction.value|));
    }
  }

  /** Zeros behind a fraction do not change the time, and no fraction is a zero fraction. */
  lemma TrailingZero(b: Blanks, c: Captured, f: string)
    requires BlankAll(b) && WellFormed(c) && |f| < 4 && AllDigits(f)
    requires c.fraction == if f == [] then None else Some(f)
    ensures ParsedTicks(Written(b, c.(fraction := Some(f + "0")))) == ParsedTicks(Written(b, c))
  {
    var c' := c.(fraction := Some(f + "0"));
    MatchWritten(b, c);
    MatchWritten(b, c');
    SameFraction(f);
    SameTicks(Written(b, c), Written(b, c'), c, c');
  }

  lemma SameTicks(s: string, s': string, c: Captured, c': Captured)
    requires Match(s) == Some(c) && Match(s') == Some(c')
    requires c'.hours == c.hours && c'.minutes == c.minutes && c'.seconds == c.seconds
    requires FractionTicks(c'.fraction) == FractionTicks(c.fraction)
    ensures ParsedTicks(s') == ParsedTicks(s)
  {
  }

  lemma SameFraction(f: string)
    requires |f| < 4
    ensures FractionTicks(Some(f + "0")) == if f == [] then 0 else FractionTicks(Some(f))
  {
    ValueSnoc(f, '0');
    TimesAgain(Value(f), 10, Pow10(3 - |f|));
  }

  function InMicros(r: Result<int, TimeError>): Result<int, TimeError> {
    match r
    case Ok(ticks) => Ok(100 * ticks)
    case Err(e) => Err(e)
  }

  /** A text outside the pattern cannot be converted; one of the pattern means what a clock shows, or is refused. */
  ghost predicate IsMeant(s: string, r: Result<int, TimeError>) {
    && (r == Err(ConversionError) <==> forall c :: !InPattern(s, c))
    && (forall c :: InPattern(s, c) ==>
          if OffTheClock(c) then r == Err(InvalidTime) else r.Ok? && Shows(r.value, c))
  }

  /** So it is with every text. */
  lemma ParsedIsMeant(s: string)
    ensures IsMeant(s, InMicros(ParsedTicks(s)))
  {
    var r := InMicros(ParsedTicks(s));
    forall c | InPattern(s, c) ensures if OffTheClock(c) then r == Err(InvalidTime) else r.Ok? && Shows(r.value, c) {
      var b :| BlankAll(b) && s == Written(b, c);
      TextShows(b, c);
    }
    if Match(s).Some? {
      MatchIsPattern(s, Match(s).value);
    }
  }

  lemma CapturedIsParsed(s: string, c: Captured)
    requires Match(s) == Some(c)
    ensures WellFormed(c)
    ensures InMicros(ParsedTicks(s))
         == if OffTheClock(c) then Err(InvalidTime)
            else Ok(Value(c.hours) * 3_600_000_000 + Value(c.minutes) * 60_000_000 + Value(c.seconds) * 1_000_000
                    + FractionTicks(c.fraction) * 100)
    ensures ParsedTicks(s).Ok? ==> 0 <= InMicros(ParsedTicks(s)).value < 86_400_000_000
  {
    var b := MatchSplits(s);
    if ParsedTicks(s).Ok? {
      AcceptedWithinDay(s);
    }
  }

  /** stringToTime, in microseconds. */
  method StringToTime(value: string) returns (r: Result<int, TimeError>)
    ensures r == InMicros(ParsedTicks(value))
    ensures r.Ok? ==> 0 <= r.value < 86_400_000_000
  {
    var matches := Match(value);
    if matches.None? {
      return Err(ConversionError);
    }
    var c := matches.value;
    CapturedIsParsed(value, c);
    var hours, minutes, seconds := Value(c.hours), Value(c.minutes), Value(c.seconds);
    var fractions := 0;
    if c.fraction.Some? {
      fractions := PadFraction(c.fraction.value);
    }
    if hours >= 24 || minutes >= 60 || seconds >= 60 {
      return Err(InvalidTime);
    }
    var timeOfDay := hours * 3_600_000_000 + minutes * 60_000_000 + seconds * 1_000_000 + fractions * 100;
    assert timeOfDay < 86_400_000_000;
    r := Ok(timeOfDay);
  }

  // ---------------------------------------------------------------- printing

  /** `{:0width}` */
  function Padded(n: nat, width: nat): string {
    var ds := Digits(n);
    if |ds| >= width then ds else Zeros(width - |ds|) + ds
  }

  /** opaqueTimeToString, with decodeTime as division of the ticks. */
  function TimeString(ticks: nat): string {
    Padded(ticks / HOUR_TICKS, 2) + ":" + Padded(ticks / MINUTE_TICKS % 60, 2)
    + ":" + Padded(ticks / SECOND_TICKS % 60, 2) + "." + Padded(ticks % SECOND_TICKS, 4)
  }

  lemma PaddedValue(n: nat, width: nat)
    ensures AllDigits(Padded(n, width)) && Value(Padded(n, width)) == n && |Padded(n, width)| >= width
  {
    DigitsValue(n);
    var ds := Digits(n);
    if |ds| < width {
      ZerosValue(width - |ds|);
      ValueConcat(Zeros(width - |ds|), ds);
    }
  }

  lemma {:induction false} DigitsShort(n: nat, k: nat)
    requires k >= 1 && n < Pow10(k)
    ensures |Digits(n)| <= k
  {
    if n >= 10 {
      assert k > 1 by { assert Pow10(1) == 10; }
      DigitsShort(n / 10, k - 1);
    }
  }

  lemma PaddedWidth(n: nat, width: nat)
    requires width >= 1 && n < Pow10(width)
    ensures |Padded(n, width)| == width
  {
    DigitsShort(n, width);
  }

  function PrintedParts(ticks: nat): Captured {
    Captured(Padded(ticks / HOUR_TICKS, 2), Padded(ticks / MINUTE_TICKS % 60, 2), Padded(ticks / SECOND_TICKS % 60, 2),
             Some(Padded(ticks % SECOND_TICKS, 4)))
  }

  lemma PrintedMatches(ticks: nat)
    requires ticks < DAY_TICKS
    ensures Match(TimeString(ticks)) == Some(PrintedParts(ticks))
  {
    var c, b := PrintedParts(ticks), Blanks("", "", "", "", "", "", "", "");
    assert Pow10(1) == 10 && Pow10(2) == 100 && Pow10(3) == 1000 && Pow10(4) == 10000;
    PaddedValue(ticks / HOUR_TICKS, 2);
    PaddedWidth(ticks / HOUR_TICKS, 2);
    PaddedValue(ticks / MINUTE_TICKS % 60, 2);
    PaddedWidth(ticks / MINUTE_TICKS % 60, 2);
    PaddedValue(ticks / SECOND_TICKS % 60, 2);
    PaddedWidth(ticks / SECOND_TICKS % 60, 2);
    PaddedValue(ticks % SECOND_TICKS, 4);
    PaddedWidth(ticks % SECOND_TICKS, 4);
    WrittenTight(c);
    MatchWritten(b, c);
  }

  lemma WrittenTight(c: Captured)
    requires c.fraction.Some?
    ensures Written(Blanks("", "", "", "", "", "", "", ""), c)
         == c.hours + ":" + c.minutes + ":" + c.seconds + "." + c.fraction.value
  {
  }

  lemma TicksAddUp(ticks: nat)
    ensures ticks / HOUR_TICKS * HOUR_TICKS + ticks / MINUTE_TICKS % 60 * MINUTE_TICKS
            + ticks / SECOND_TICKS % 60 * SECOND_TICKS + ticks % SECOND_TICKS == ticks
  {
    assert ticks / SECOND_TICKS / 60 == ticks / MINUTE_TICKS;
    assert ticks / MINUTE_TICKS / 60 == ticks / HOUR_TICKS;
  }

  lemma PrintedValues(ticks: nat)
    ensures var c := PrintedParts(ticks);
            && Value(c.hours) == ticks / HOUR_TICKS && Value(c.minutes) == ticks / MINUTE_TICKS % 60
            && Value(c.seconds) == ticks / SECOND_TICKS % 60
            && |c.fraction.value| == 4 && FractionTicks(c.fraction) == ticks % SECOND_TICKS
  {
    PaddedValue(ticks / HOUR_TICKS, 2);
    PaddedValue(ticks / MINUTE_TICKS % 60, 2);
    PaddedValue(ticks / SECOND_TICKS % 60, 2);
    PaddedWidth4(ticks % SECOND_TICKS);
  }

  lemma ParsedSplit(s: string, c: Captured, ticks: nat)
    requires Match(s) == Some(c) && ticks < DAY_TICKS
    requires Value(c.hours) == ticks / HOUR_TICKS && Value(c.minutes) == ticks / MINUTE_TICKS % 60
    requires Value(c.seconds) == ticks / SECOND_TICKS % 60 && FractionTicks(c.fraction) == ticks % SECOND_TICKS
    ensures ParsedTicks(s) == Ok(ticks)
  {
    TicksAddUp(ticks);
  }

  /** Printing and parsing undo each other exactly for the ticks of a day. */
  lemma TimeRoundTrip(ticks: nat)
    ensures ParsedTicks(TimeString(ticks)) == Ok(ticks) <==> ticks < DAY_TICKS
  {
    if ticks < DAY_TICKS {
      PrintedMatches(ticks);
      PrintedValues(ticks);
      ParsedSplit(TimeString(ticks), PrintedParts(ticks), ticks);
    } else if ParsedTicks(TimeString(ticks)).Ok? {
      AcceptedWithinDay(TimeString(ticks));
    }
  }

  lemma PaddedWidth4(n: nat)
    requires n < 10000
    ensures |Padded(n, 4)| == 4 && FractionTicks(Some(Padded(n, 4))) == n
  {
    assert Pow10(1) == 10 && Pow10(2) == 100 && Pow10(3) == 1000 && Pow10(4) == 10000 && Pow10(0) == 1;
    PaddedWidth(n, 4);
    PaddedValue(n, 4);
  }

  /** The printed text is thirteen characters: `hh:mm:ss.ffff`. */
  ghost predicate ClockText(s: string) {
    && |s| == 13 && s[2] == ':' && s[5] == ':' && s[8] == '.'
    && forall i :: 0 <= i < 13 && i != 2 && i != 5 && i != 8 ==> IsDigit(s[i])
  }

  lemma PrintsClockText(ticks: nat)
    requires ticks < DAY_TICKS
    ensures ClockText(TimeString(ticks))
  {
    var c := PrintedParts(ticks);
    assert Pow10(1) == 10 && Pow10(2) == 100 && Pow10(3) == 1000 && Pow10(4) == 10000;
    PaddedValue(ticks / HOUR_TICKS, 2);
    PaddedWidth(ticks / HOUR_TICKS, 2);
    PaddedValue(ticks / MINUTE_TICKS % 60, 2);
    PaddedWidth(ticks / MINUTE_TICKS % 60, 2);
    PaddedValue(ticks / SECOND_TICKS % 60, 2);
    PaddedWidth(ticks / SECOND_TICKS % 60, 2);
    PaddedValue(ticks % SECOND_TICKS, 4);
    PaddedWidth(ticks % SECOND_TICKS, 4);
    ClockTextOf(c);
  }

  lemma ClockTextOf(c: Captured)
    requires WellFormed(c) && c.fraction.Some? && |c.fraction.value| == 4
    ensures ClockText(c.hours + ":" + c.minutes + ":" + c.seconds + "." + c.fraction.value)
  {
  }

  /** Printing an accepted text gives its canonical form, which means the same time. */
  lemma CanonicalForm(s: string)
    requires ParsedTicks(s).Ok?
    ensures ParsedTicks(s).value >= 0 && ParsedTicks(TimeString(ParsedTicks(s).value)) == ParsedTicks(s)
  {
    AcceptedWithinDay(s);
    TimeRoundTrip(ParsedTicks(s).value);
  }
}
