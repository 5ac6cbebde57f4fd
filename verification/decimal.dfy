/** Decimal rendering of integers, as Python's `str(int)`, f-string `{i+1}`
    and the zero-padded `%Y`, `%m`, `%d`, ... fields of `strftime` produce it. */
module Decimal {
  import opened StringOrder
  import opened Outcomes

  predicate IsDigit(c: char)
  {
    '0' <= c <= '9'
  }

  predicate AllDigits(s: string)
  {
    forall i :: 0 <= i < |s| ==> IsDigit(s[i])
  }

  function DigitChar(d: nat): (c: char)
    requires d < 10
    ensures IsDigit(c)
  {
    ('0' as int + d) as char
  }

  function DigitValue(c: char): (d: nat)
    requires IsDigit(c)
    ensures d < 10 && DigitChar(d) == c
  {
    c as int - '0' as int
  }

  /** The number a string of decimal digits denotes. */
  function DecimalValue(s: string): nat
    requires AllDigits(s)
  {
    if s == [] then 0 else DecimalValue(s[..|s| - 1]) * 10 + DigitValue(s[|s| - 1])
  }

  function Pow10(w: nat): (p: nat)
    ensures p > 0
  {
    if w == 0 then 1 else 10 * Pow10(w - 1)
  }

  lemma Pow10Values()
    ensures Pow10(2) == 100 && Pow10(4) == 10000 && Pow10(6) == 1000000
  {
    assert Pow10(2) == 100;
    assert Pow10(4) == 10000;
  }

  /** `str(n)` for a non-negative integer: digits only, no leading zero. */
  function NatToString(n: nat): (s: string)
    ensures |s| > 0 && AllDigits(s)
    ensures s[0] == '0' ==> s == "0"
  {
    if n < 10 then [DigitChar(n)]
    else NatToString(n / 10) + [DigitChar(n % 10)]
  }

  /** `str(i)` for any integer: a minus sign before the digits of |i|. */
  function IntToString(i: int): (s: string)
    ensures |s| > 0
  {
    if i < 0 then "-" + NatToString(-i) else NatToString(i)
  }

  /** Reads back what IntToString wrote. */
  function ParseInt(s: string): Option<int>
  {
    if |s| > 1 && s[0] == '-' && AllDigits(s[1..]) then Some(0 - DecimalValue(s[1..]))
    else if |s| > 0 && AllDigits(s) then Some(DecimalValue(s))
    else None
  }

  lemma {:induction false} NatToStringRoundTrip(n: nat)
    ensures DecimalValue(NatToString(n)) == n
  {
    if n >= 10 {
      NatToStringRoundTrip(n / 10);
      var s := NatToString(n);
      assert s[..|s| - 1] == NatToString(n / 10);
    }
  }

  lemma IntToStringRoundTrip(i: int)
    ensures ParseInt(IntToString(i)) == Some(i)
  {
    if i < 0 {
      NegativeRoundTrip(-i);
    } else {
      NonNegativeRoundTrip(i);
    }
  }

  lemma NonNegativeRoundTrip(n: nat)
    ensures ParseInt(NatToString(n)) == Some(n as int)
  {
    var s := NatToString(n);
    NatToStringRoundTrip(n);
    assert IsDigit(s[0]);
  }

  lemma NegativeRoundTrip(n: nat)
    requires n > 0
    ensures ParseInt("-" + NatToString(n)) == Some(-(n as int))
  {
    var digits := NatToString(n);
    var s := "-" + digits;
    NatToStringRoundTrip(n);
    assert |s| > 1 && s[0] == '-';
    assert s[1..] == digits;
  }

  /** `n` written with exactly `width` digits, zero-padded on the left, as
      `%0<width>d` writes every `n < 10^width`. */
  function Digits(n: nat, width: nat): (s: string)
    ensures |s| == width && AllDigits(s)
  {
    if width == 0 then "" else Digits(n / 10, width - 1) + [DigitChar(n % 10)]
  }

  lemma {:induction false} DigitsValue(n: nat, width: nat)
    requires n < Pow10(width)
    ensures DecimalValue(Digits(n, width)) == n
  {
    if width > 0 {
      var q, d := n / 10, n % 10;
      assert n == q * 10 + d;
      assert q < Pow10(width - 1);
      DigitsValue(q, width - 1);
      var s := Digits(n, width);
      assert s == Digits(q, width - 1) + [DigitChar(d)];
      assert s[..|s| - 1] == Digits(q, width - 1);
      assert DigitValue(s[|s| - 1]) == d;
      assert DecimalValue(s) == DecimalValue(Digits(q, width - 1)) * 10 + d;
    }
  }

  /** Fixed-width decimal strings sort as the numbers they denote. */
  lemma {:induction false} DigitsOrder(n: nat, m: nat, width: nat)
    requires n < Pow10(width) && m < Pow10(width)
    ensures Le(Digits(n, width), Digits(m, width)) <==> n <= m
    ensures Digits(n, width) == Digits(m, width) <==> n == m
  {
    if width == 0 {
      LeReflexive("");
    } else {
      var a, b := Digits(n / 10, width - 1), Digits(m / 10, width - 1);
      var c, d := DigitChar(n % 10), DigitChar(m % 10);
      DigitsOrder(n / 10, m / 10, width - 1);
      LeAppend(a, [c], b, [d]);
      assert Le([c], [d]) <==> n % 10 <= m % 10 by {
        assert [c][1..] == [] && [d][1..] == [];
        LeReflexive([]);
      }
      if Digits(n, width) == Digits(m, width) {
        assert a == Digits(n, width)[..width - 1];
        assert b == Digits(m, width)[..width - 1];
        assert c == Digits(n, width)[width - 1];
        assert d == Digits(m, width)[width - 1];
      }
    }
  }
}
