/** Strings of decimal digits and the numbers they denote. */
module DigitStrings {
  import opened Collections
  import opened Decimal

  predicate IsDigit(c: char) { '0' <= c <= '9' }

  function DigitChar(d: nat): char
    requires d < 10
  {
    '0' + d as char
  }

  predicate AllDigits(s: string) { forall c :: c in s ==> IsDigit(c) }

  function DigitOf(c: char): int { c as int - '0' as int }

  /** The number a digit string denotes. */
  function Value(s: string): int {
    if s == [] then 0 else Value(s[..|s| - 1]) * 10 + DigitOf(s[|s| - 1])
  }

  function Zeros(n: nat): string { seq(n, _ => '0') }

  /** Shortest decimal representation, most significant digit first. */
  function Digits(n: nat): string {
    if n < 10 then [DigitChar(n)] else Digits(n / 10) + [DigitChar(n % 10)]
  }

  lemma ValueSnoc(s: string, c: char)
    ensures Value(s + [c]) == Value(s) * 10 + DigitOf(c)
  {
    assert (s + [c])[..|s|] == s;
  }

  lemma {:induction false} DigitsValue(n: nat)
    ensures AllDigits(Digits(n)) && |Digits(n)| > 0 && Value(Digits(n)) == n
  {
    if n >= 10 {
      DigitsValue(n / 10);
      ValueSnoc(Digits(n / 10), DigitChar(n % 10));
    } else {
      ValueSnoc([], DigitChar(n));
      assert [] + [DigitChar(n)] == [DigitChar(n)];
    }
  }

  lemma {:induction false} ValueConcat(a: string, b: string)
    ensures Value(a + b) == Value(a) * Pow10(|b|) + Value(b)
  {
    if b == [] {
      assert a + b == a;
    } else {
      var init, last := b[..|b| - 1], b[|b| - 1];
      ValueConcat(a, init);
      AppendDigit(a, init, last);
      assert b == init + [last];
    }
  }

  lemma AppendDigit(a: string, b: string, c: char)
    requires Value(a + b) == Value(a) * Pow10(|b|) + Value(b)
    ensures Value(a + (b + [c])) == Value(a) * Pow10(|b| + 1) + Value(b + [c])
  {
    ValueSnoc(a + b, c);
    ValueSnoc(b, c);
    Regroup(a, b, [c]);
    TensOut(Pow10(|b|), Value(a), 0);
    assert Value(a) * (10 * Pow10(|b|)) == 10 * (Value(a) * Pow10(|b|));
  }

  lemma {:induction false} ZerosValue(n: nat)
    ensures AllDigits(Zeros(n)) && Value(Zeros(n)) == 0
  {
    if n > 0 {
      ZerosValue(n - 1);
      assert Zeros(n) == Zeros(n - 1) + ['0'];
      ValueSnoc(Zeros(n - 1), '0');
    }
  }

  lemma SplitAt(s: string, k: nat)
    requires k <= |s|
    ensures s == s[..k] + s[k..]
  {
  }

  lemma PartsAreDigits(a: string, b: string)
    requires AllDigits(a + b)
    ensures AllDigits(a) && AllDigits(b)
  {
    forall c | c in a || c in b ensures IsDigit(c) {
      assert c in a + b;
    }
  }

  lemma {:induction false} ValueBelow(s: string)
    requires AllDigits(s)
    ensures 0 <= Value(s) < Pow10(|s|)
  {
    if s != [] {
      assert s[|s| - 1] in s;
      ValueBelow(s[..|s| - 1]);
    }
  }

  // ---------------------------------------------------------------- one string for each number

  /** Of a given length there is one digit string for each number. */
  lemma {:induction false} SameDigits(a: string, b: string)
    requires AllDigits(a) && AllDigits(b) && |a| == |b| && Value(a) == Value(b)
    ensures a == b
  {
    if a != [] {
      var n := |a| - 1;
      assert a[n] in a && b[n] in b;
      assert a == a[..n] + [a[n]] && b == b[..n] + [b[n]];
      SameDigits(a[..n], b[..n]);
    }
  }

  /** No zero in front, save for the number zero itself. */
  predicate Shortest(s: string) { s != [] && (|s| > 1 ==> s[0] != '0') }

  lemma {:induction false} DigitsAreShortest(n: nat)
    ensures Shortest(Digits(n)) && (n > 0 ==> Digits(n)[0] != '0')
  {
    if n >= 10 {
      DigitsAreShortest(n / 10);
    }
  }

  lemma {:induction false} ShortestIsDigits(s: string)
    requires AllDigits(s) && Shortest(s)
    ensures Value(s) >= 0 && s == Digits(Value(s)) && (s[0] != '0' ==> Value(s) > 0)
  {
    var n := |s| - 1;
    assert s[n] in s && s == s[..n] + [s[n]];
    if n > 0 {
      assert s[0] == s[..n][0];
      ShortestIsDigits(s[..n]);
      LastDigit(Value(s[..n]), s[n]);
    } else {
      assert s[..0] == [];
    }
  }

  lemma LastDigit(n: nat, c: char)
    requires n > 0 && IsDigit(c)
    ensures Digits(10 * n + DigitOf(c)) == Digits(n) + [c]
  {
    DivisionIs(10 * n + DigitOf(c), 10, n, DigitOf(c));
  }
}
