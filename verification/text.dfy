/**
 The decimal text the recorder prints: the `%ld` of the file name
 `recording-<seconds>.wav` and the `%02d` fields of the `Time: mm:ss` label.
 `DigitsValue` reads a digit string back, so that what is printed can be
 shown to determine the number it was printed from.
 */
module Text {

  predicate IsDigit(c: char) {
    '0' <= c <= '9'
  }

  predicate AllDigits(s: string) {
    forall k :: 0 <= k < |s| ==> IsDigit(s[k])
  }

  function DigitChar(d: nat): (c: char)
    requires d < 10
    ensures IsDigit(c) && c as int - '0' as int == d
  {
    ('0' as int + d) as char
  }

  /** The value of a string of decimal digits, most significant first. */
  function DigitsValue(s: string): (n: nat)
    requires AllDigits(s)
  {
    if s == [] then 0
    else DigitsValue(s[..|s| - 1]) * 10 + (s[|s| - 1] as int - '0' as int)
  }

  /** `%d` / `%ld` of a non-negative number: shortest form, no leading zero. */
  function Decimal(n: nat): (s: string)
    ensures |s| >= 1 && AllDigits(s)
    ensures n == 0 <==> s == "0"
    ensures |s| > 1 ==> s[0] != '0'
    ensures n < 10 <==> |s| == 1
  {
    if n < 10 then [DigitChar(n)] else Decimal(n / 10) + [DigitChar(n % 10)]
  }

  /**
   `%ld` of any number: a minus sign exactly when the number is negative,
   then the digits of its magnitude, which read back to that magnitude.
   */
  function Signed(t: int): (s: string)
    ensures |s| >= 1 && (s[0] == '-' <==> t < 0)
    ensures t >= 0 ==> AllDigits(s) && DigitsValue(s) == t
    ensures t < 0 ==> |s| >= 2 && AllDigits(s[1..]) && DigitsValue(s[1..]) == -t
  {
    if t < 0 then
      DecimalRoundTrip(-t);
      var s := "-" + Decimal(-t);
      assert s[1..] == Decimal(-t);
      s
    else
      DecimalRoundTrip(t);
      Decimal(t)
  }

  /** `%02d` of a non-negative number: padded with zeros to at least two digits. */
  function PadTwo(n: nat): (s: string)
    ensures |s| >= 2 && AllDigits(s)
    ensures n < 100 ==> |s| == 2
  {
    if n < 10 then "0" + Decimal(n) else Decimal(n)
  }

  function Pow10(k: nat): (p: nat)
    ensures p >= 1
  {
    if k == 0 then 1 else 10 * Pow10(k - 1)
  }

  lemma {:induction false} Pow10Add(a: nat, b: nat)
    ensures Pow10(a + b) == Pow10(a) * Pow10(b)
    decreases a
  {
    if a > 0 {
      Pow10Add(a - 1, b);
    }
  }

  lemma {:induction false} DecimalRoundTrip(n: nat)
    ensures DigitsValue(Decimal(n)) == n
    decreases n
  {
    var s := Decimal(n);
    if n < 10 {
      assert s[..0] == [];
    } else {
      assert s[..|s| - 1] == Decimal(n / 10);
      DecimalRoundTrip(n / 10);
    }
  }

  /** Printing loses nothing: two numbers print alike only if they are equal. */
  lemma DecimalInjective(m: nat, n: nat)
    requires Decimal(m) == Decimal(n)
    ensures m == n
  {
    DecimalRoundTrip(m);
    DecimalRoundTrip(n);
  }

  lemma {:induction false} DecimalLength(n: nat, k: nat)
    requires 1 <= k && n < Pow10(k)
    ensures |Decimal(n)| <= k
    decreases k
  {
    if n >= 10 {
      assert k > 1;
      DecimalLength(n / 10, k - 1);
    }
  }

  lemma SignedInjective(s: int, t: int)
    requires Signed(s) == Signed(t)
    ensures s == t
  {
    if s < 0 && t < 0 {
      assert Decimal(-s) == Signed(s)[1..] == Signed(t)[1..] == Decimal(-t);
      DecimalInjective(-s, -t);
    } else if s >= 0 && t >= 0 {
      DecimalInjective(s, t);
    }
  }

  lemma PadTwoRoundTrip(n: nat)
    ensures DigitsValue(PadTwo(n)) == n
  {
    var s := PadTwo(n);
    if n < 10 {
      assert s == ['0', DigitChar(n)];
      assert s[..1] == ['0'] && s[..1][..0] == [];
      assert DigitsValue(s[..1]) == 0;
      assert DigitsValue(s) == DigitsValue(s[..1]) * 10 + (s[1] as int - '0' as int);
    } else {
      DecimalRoundTrip(n);
    }
  }
}
