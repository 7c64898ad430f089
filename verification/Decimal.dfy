/** Decimal text of natural numbers: JavaScript's `Number.prototype.toString()`
    on a non-negative integer, and `Number(s)` on a string of ASCII digits. */
module Decimal {

  predicate IsDigit(c: char) {
    '0' <= c <= '9'
  }

  predicate IsDigits(s: string) {
    forall i :: 0 <= i < |s| ==> IsDigit(s[i])
  }

  function DigitChar(d: nat): (c: char)
    requires d < 10
    ensures IsDigit(c)
  {
    ('0' as int + d) as char
  }

  function DigitValue(c: char): (d: nat)
    requires IsDigit(c)
    ensures d < 10
    ensures DigitChar(d) == c
  {
    (c as int - '0' as int) as nat
  }

  function Pow10(k: nat): (p: nat)
    ensures p >= 1
  {
    if k == 0 then 1 else 10 * Pow10(k - 1)
  }

  /** `n.toString()`: the shortest decimal rendering, no sign, no leading zero. */
  function NatToString(n: nat): (s: string)
    decreases n
  {
    if n < 10 then [DigitChar(n)] else NatToString(n / 10) + [DigitChar(n % 10)]
  }

  /** `Number(s)` for a string of digits: leading zeros are ignored and the
      empty string is 0. */
  function DigitsToNat(s: string): nat
    requires IsDigits(s)
  {
    if |s| == 0 then 0 else DigitsToNat(s[..|s| - 1]) * 10 + DigitValue(s[|s| - 1])
  }

  /** `Number.MAX_SAFE_INTEGER`, 2^53 - 1. Up to it every natural is a double
      exactly, so `Number` of its digit string is exact and `toString` prints
      its plain decimal digits; `NatToString` and `DigitsToNat` model the two
      operations only in this range. */
  const MaxSafeInteger: nat := 9007199254740991

  /** A rendering is canonical when it is what `toString` would print. */
  predicate IsCanonical(s: string) {
    |s| >= 1 && IsDigits(s) && (s[0] == '0' ==> |s| == 1)
  }

  /** The two-digit decimal rendering of a number below 100, with a leading zero
      when needed; a reference definition independent of `NatToString`. */
  function TwoDigits(k: nat): (s: string)
    requires k < 100
    ensures |s| == 2 && IsDigits(s)
  {
    [DigitChar(k / 10), DigitChar(k % 10)]
  }

  lemma {:induction false} NatToStringIsCanonical(n: nat)
    ensures IsCanonical(NatToString(n))
    decreases n
  {
    if n >= 10 {
      NatToStringIsCanonical(n / 10);
      NatToStringNonZeroLead(n / 10);
    }
  }

  lemma {:induction false} NatToStringNonZeroLead(n: nat)
    requires n >= 1
    ensures |NatToString(n)| >= 1 && NatToString(n)[0] != '0'
    decreases n
  {
    if n >= 10 {
      NatToStringNonZeroLead(n / 10);
    }
  }

  /** `Number(n.toString()) == n`. */
  lemma {:induction false} DigitsToNatOfNatToString(n: nat)
    ensures IsDigits(NatToString(n))
    ensures DigitsToNat(NatToString(n)) == n
    decreases n
  {
    NatToStringIsCanonical(n);
    if n >= 10 {
      var s := NatToString(n);
      DigitsToNatOfNatToString(n / 10);
      assert s[..|s| - 1] == NatToString(n / 10);
    }
  }

  /** The length of `n.toString()` is the number of decimal digits of `n`. */
  lemma {:induction false} NatToStringLength(n: nat, k: nat)
    requires k >= 1
    ensures |NatToString(n)| == k <==> (k == 1 || Pow10(k - 1) <= n) && n < Pow10(k)
    decreases n
  {
    if n >= 10 {
      if k == 1 {
        NatToStringNonZeroLead(n / 10);
      } else {
        NatToStringLength(n / 10, k - 1);
        if k - 1 == 1 {
          assert Pow10(1) == 10;
        }
      }
    } else if k > 1 {
      assert Pow10(k - 1) >= 10 by { Pow10Grows(k - 1); }
    }
  }

  lemma {:induction false} Pow10Grows(k: nat)
    requires k >= 1
    ensures Pow10(k) >= 10
  {
    if k > 1 {
      Pow10Grows(k - 1);
    }
  }

  /** Reading the digits of `a + b` is shifting the value of `a` past `b`. */
  lemma {:induction false} DigitsToNatAppend(a: string, b: string)
    requires IsDigits(a) && IsDigits(b)
    ensures IsDigits(a + b)
    ensures DigitsToNat(a + b) == DigitsToNat(a) * Pow10(|b|) + DigitsToNat(b)
    decreases |b|
  {
    var ab := a + b;
    assert IsDigits(ab);
    if |b| > 0 {
      var b' := b[..|b| - 1];
      assert ab[..|ab| - 1] == a + b';
      assert ab[|ab| - 1] == b[|b| - 1];
      assert b[..|b| - 1] == b';
      DigitsToNatAppend(a, b');
      ShiftOneDigit(DigitsToNat(a), Pow10(|b'|), DigitsToNat(b'), DigitValue(b[|b| - 1]));
    } else {
      assert ab == a;
    }
  }

  lemma ShiftOneDigit(x: int, p: int, y: int, d: int)
    ensures (x * p + y) * 10 + d == x * (10 * p) + (y * 10 + d)
  {
  }

  /** Splits `n` into its last two decimal digits and the rest. */
  lemma LastTwoDigits(n: nat)
    ensures (n / 10) % 10 == (n % 100) / 10
    ensures n % 10 == (n % 100) % 10
  {
    var a, q := n % 10, n / 10;
    var b, c := q % 10, q / 10;
    var r := 10 * b + a;
    assert n == 100 * c + r;
    DivModUnique(n, 100, c, r);
    DivModUnique(r, 10, b, a);
  }

  lemma DivModUnique(n: int, d: int, q: int, r: int)
    requires d == 10 || d == 100
    requires n == d * q + r && 0 <= r < d
    ensures n / d == q && n % d == r
  {
    if d == 10 {
      assert n == 10 * q + r;
    } else {
      assert n == 100 * q + r;
    }
  }

  /** Leading zeros are dropped by `Number`: `Number("07") == Number("7")`. */
  lemma LeadingZeroIgnored(s: string)
    requires IsDigits(s)
    ensures IsDigits("0" + s)
    ensures DigitsToNat("0" + s) == DigitsToNat(s)
  {
    DigitsToNatAppend("0", s);
  }

  /** A digit string with a non-zero first digit is at least `10^(|s|-1)`. */
  lemma LeadingDigitBound(s: string)
    requires |s| >= 1 && IsDigits(s) && s[0] != '0'
    ensures DigitsToNat(s) >= Pow10(|s| - 1)
  {
    assert s == s[..1] + s[1..];
    DigitsToNatAppend(s[..1], s[1..]);
    assert DigitsToNat(s[..1]) == DigitValue(s[0]) >= 1;
  }

  /** A canonical rendering reads back to itself: `String(Number(s)) == s`. */
  lemma {:induction false} NatToStringOfDigitsToNat(s: string)
    requires IsCanonical(s)
    ensures NatToString(DigitsToNat(s)) == s
    decreases |s|
  {
    if |s| > 1 {
      var init := s[..|s| - 1];
      var d := DigitValue(s[|s| - 1]);
      assert IsCanonical(init);
      NatToStringOfDigitsToNat(init);
      LeadingDigitBound(init);
      var v := DigitsToNat(init);
      var n := v * 10 + d;
      assert n / 10 == v && n % 10 == d;
      assert s == init + [s[|s| - 1]];
    }
  }

  /** The value of a two-digit string, rendered back with `TwoDigits`, is that string. */
  lemma TwoDigitsOfDigitsToNat(s: string)
    requires |s| == 2 && IsDigits(s)
    ensures DigitsToNat(s) < 100
    ensures TwoDigits(DigitsToNat(s)) == s
  {
    var v := DigitsToNat(s);
    var s0 := s[..1];
    assert s[..|s| - 1] == s0;
    assert s0[..|s0| - 1] == [];
    assert DigitsToNat(s0) == DigitValue(s[0]);
    assert v == DigitValue(s[0]) * 10 + DigitValue(s[1]);
  }

  /** `TwoDigits` is read back by `Number`, so it is injective. */
  lemma DigitsToNatOfTwoDigits(k: nat)
    requires k < 100
    ensures DigitsToNat(TwoDigits(k)) == k
  {
    var s := TwoDigits(k);
    var s0 := s[..1];
    assert s[..|s| - 1] == s0;
    assert s0[..|s0| - 1] == [];
    assert DigitsToNat(s0) == k / 10;
  }

  /** The last two characters of `n.toString()` for `n >= 10` are the two-digit
      rendering of `n % 100`. */
  lemma LastTwoOfNatToString(n: nat)
    requires n >= 10
    ensures |NatToString(n)| >= 2
    ensures NatToString(n)[|NatToString(n)| - 2..] == TwoDigits(n % 100)
  {
    var s := NatToString(n);
    var q := n / 10;
    assert s == NatToString(q) + [DigitChar(n % 10)];
    var t := NatToString(q);
    assert t[|t| - 1] == DigitChar(q % 10) by {
      if q >= 10 {
        assert t == NatToString(q / 10) + [DigitChar(q % 10)];
      }
    }
    LastTwoDigits(n);
    assert s[|s| - 2..] == [t[|t| - 1], DigitChar(n % 10)];
  }
}
