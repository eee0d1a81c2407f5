/** Powers of ten, division that truncates as in C++, and rounding half away from zero. */
module Decimal {

  function Pow10(n: nat): (p: nat)
    ensures p > 0
  {
    if n == 0 then 1 else 10 * Pow10(n - 1)
  }

  function Abs(x: int): nat { if x < 0 then -x else x }

  /** Toward zero. */
  function TruncDiv(a: int, b: int): int
    requires b > 0
  {
    if a >= 0 then a / b else -(-a / b)
  }

  /** Has the sign of the dividend. */
  function TruncMod(a: int, b: int): int
    requires b > 0
  {
    if a >= 0 then a % b else -(-a % b)
  }

  /** `r` is an integer nearest to `v / d`, and the one farther from zero when two are. */
  ghost predicate Nearest(r: int, v: int, d: int) {
    && d > 0
    && 2 * Abs(d * r - v) <= d
    && (2 * Abs(d * r - v) == d ==> Abs(d * r) > Abs(v))
  }

  /** The quotient at one digit too many, corrected by that digit. */
  function RoundedDiv(v: int, d: int): int
    requires d > 0
  {
    if v >= 0 then (2 * v + d) / (2 * d) else -((2 * -v + d) / (2 * d))
  }

  lemma GapAtLeast(d: int, x: int, y: int)
    requires d > 0 && x > y
    ensures d * x - d * y >= d
  {
    var k := x - y - 1;
    SameSign(d, k);
    assert d * (y + 1 + k) == d * y + d + d * k;
  }

  lemma SameSign(d: int, k: int)
    requires d >= 0
    ensures k >= 0 ==> d * k >= 0
    ensures k <= 0 ==> d * k <= 0
  {
  }

  lemma DivisionIs(a: int, b: int, q: int, r: int)
    requires b > 0 && a == b * q + r && 0 <= r < b
    ensures a / b == q && a % b == r
  {
    var q', r' := a / b, a % b;
    assert b * q' + r' == b * q + r;
    if q' > q {
      GapAtLeast(b, q', q);
    } else if q' < q {
      GapAtLeast(b, q, q');
    }
  }

  lemma TensOut(p: int, q: int, f: int)
    ensures p * (10 * q + f) == 10 * (p * q) + p * f
    ensures (10 * p) * q == 10 * (p * q) && (20 * p) * q == 20 * (p * q) && (20 * p) * (q + 1) == 20 * (p * q) + 20 * p
  {
  }

  lemma RoundedDivIsNearest(v: int, d: int)
    requires d > 0
    ensures Nearest(RoundedDiv(v, d), v, d)
  {
    var a := Abs(v);
    var q := (2 * a + d) / (2 * d);
    var r := (2 * a + d) % (2 * d);
    assert 2 * a + d == 2 * d * q + r;
    assert 2 * (d * q - a) == d - r;
    assert d * -q == -(d * q);
  }

  /** Two nearest integers cannot lie on either side of `v / d`. */
  lemma NotBothSides(r: int, s: int, v: int, d: int)
    requires Nearest(r, v, d) && Nearest(s, v, d)
    ensures r <= s
  {
    if r > s {
      GapAtLeast(d, r, s);
      assert 2 * (d * r - v) == d && 2 * (v - d * s) == d;
      if v >= 0 && s < 0 {
        GapAtLeast(d, 0, s);
      } else if v >= 0 {
        SameSign(d, s);
      } else if r > 0 {
        GapAtLeast(d, r, 0);
      } else {
        SameSign(d, r);
      }
    }
  }

  lemma NearestIsUnique(r: int, s: int, v: int, d: int)
    requires Nearest(r, v, d) && Nearest(s, v, d)
    ensures r == s
  {
    NotBothSides(r, s, v, d);
    NotBothSides(s, r, v, d);
  }

  lemma {:induction false} Pow10Adds(m: nat, n: nat)
    ensures Pow10(m + n) == Pow10(m) * Pow10(n)
  {
    if m > 0 {
      Pow10Adds(m - 1, n);
      TensOut(Pow10(m - 1), Pow10(n), 0);
    }
  }

  /** Dropping digits one at a time drops them all at once. */
  lemma DivideAgain(a: nat, p: int)
    requires p > 0
    ensures (a / p) / 10 == a / (10 * p)
  {
    var q, r := a / p, a % p;
    var q2, f := q / 10, q % 10;
    TensOut(p, q2, f);
    DigitBounds(p, f);
    var pq, pf := p * q2, p * f;
    assert a == 10 * pq + pf + r;
    DivisionIs(a, 10 * p, q2, pf + r);
  }

  /** The last digit dropped decides the rounding. */
  lemma LastDigitRounds(a: nat, p: int)
    requires p > 0
    ensures RoundedDiv(a, 10 * p) == (a / p) / 10 + (if (a / p) % 10 > 4 then 1 else 0)
  {
    var q1, r := a / p, a % p;
    var q, f := q1 / 10, q1 % 10;
    var pq, pf := p * q, p * f;
    TensOut(p, q, f);
    assert a == 10 * pq + pf + r;
    DigitBounds(p, f);
    if f > 4 {
      DivisionIs(2 * a + 10 * p, 20 * p, q + 1, 2 * pf - 10 * p + 2 * r);
    } else {
      DivisionIs(2 * a + 10 * p, 20 * p, q, 2 * pf + 2 * r + 10 * p);
    }
  }

  lemma DigitBounds(p: int, f: int)
    requires p > 0 && 0 <= f < 10
    ensures 0 <= p * f <= 9 * p
    ensures f > 4 ==> p * f >= 5 * p
    ensures f <= 4 ==> p * f <= 4 * p
  {
  }

  lemma RoundedDivExact(v: int, d: int)
    requires d > 0
    ensures RoundedDiv(v * d, d) == v
  {
    RoundedDivIsNearest(v * d, d);
    NearestIsUnique(RoundedDiv(v * d, d), v, v * d, d);
  }
}
