/** Decimal digit counts and the integer facts the fragment planner relies on.

    The planner decides that a fragment count "crossed a digit boundary" when
    floor(log10(total + 1)) > floor(log10(total)); for positive integers that is
    Digits(total + 1) > Digits(total), which is how it is modelled here. */
module Decimal {

  /** Number of characters in the decimal rendering of n; Digits(0) == 1, as "0" has one. */
  function Digits(n: nat): (d: nat)
    ensures d >= 1
  {
    if n < 10 then 1 else 1 + Digits(n / 10)
  }

  /** 10 to the power k. */
  function Pow10(k: nat): (p: nat)
    ensures p >= 1
  {
    if k == 0 then 1 else 10 * Pow10(k - 1)
  }

  /** Digits(n) is floor(log10(n)) + 1: n lies in [10^(d-1), 10^d). */
  lemma {:induction false} DigitsBracket(n: nat)
    requires n >= 1
    ensures Pow10(Digits(n) - 1) <= n < Pow10(Digits(n))
  {
    if n >= 10 {
      DigitsBracket(n / 10);
    }
  }

  /** The converse of DigitsBracket: a number in [10^(d-1), 10^d) has exactly d digits. */
  lemma {:induction false} DigitsOfBracket(n: nat, d: nat)
    requires d >= 1
    requires Pow10(d - 1) <= n < Pow10(d)
    ensures Digits(n) == d
  {
    if d >= 2 {
      assert Pow10(d - 1) == 10 * Pow10(d - 2);
      assert n / 10 >= Pow10(d - 2);
      assert n / 10 < Pow10(d - 1);
      DigitsOfBracket(n / 10, d - 1);
    }
  }

  /** Going from t to t + 1 adds at most one digit. */
  lemma {:induction false} DigitsStep(t: nat)
    ensures Digits(t + 1) == Digits(t) || Digits(t + 1) == Digits(t) + 1
  {
    if t >= 10 {
      DigitsStep(t / 10);
      assert (t + 1) / 10 == t / 10 || (t + 1) / 10 == t / 10 + 1;
    }
  }

  /** More is never shorter. */
  lemma {:induction false} DigitsMonotone(a: nat, b: nat)
    requires a <= b
    ensures Digits(a) <= Digits(b)
  {
    if a >= 10 {
      DigitsMonotone(a / 10, b / 10);
    }
  }

  /** Integer helpers, kept apart so that each nonlinear fact is proved in a small context. */
  lemma MulSucc(a: int, b: int)
    ensures (a + 1) * b == a * b + b
  {
  }

  lemma MulSuccRight(a: int, b: int)
    ensures a * (b + 1) == a * b + a
  {
  }

  lemma MulLeft(t: int, x: int, y: int)
    requires t >= 0
    requires x <= y
    ensures t * x <= t * y
  {
    assert t * y - t * x == t * (y - x);
  }

  lemma DivAtLeast(a: int, t: int, c: int)
    requires t > 0
    requires a >= t * c
    ensures a / t >= c
  {
    var q, r := a / t, a % t;
    assert a == t * q + r && r < t;
    if c > q {
      MulLeft(t, q + 1, c);
      MulSucc(q, t);
      assert false;
    }
  }

  lemma DivAtMost(a: int, t: int, c: int)
    requires t > 0
    requires a <= t * c
    ensures a / t <= c
  {
    var q, r := a / t, a % t;
    assert a == t * q + r && r >= 0;
    if q > c {
      MulLeft(t, c + 1, q);
      MulSucc(c, t);
      assert false;
    }
  }

  lemma MulDivExceeds(a: int, t: int)
    requires t > 0
    ensures t * (a / t + 1) > a
  {
    var q, r := a / t, a % t;
    assert a == t * q + r && r < t;
    MulSucc(q, t);
  }
}
