/**
 * Decimal digit strings: the fixed-width numeric fields of the epoch
 * timestamp text, and the strict integer syntax accepted for the `limit`
 * and `offset` query parameters.
 */
module Digits {
  import opened Options

  predicate IsDigit(c: char) {
    '0' <= c <= '9'
  }

  predicate AllDigits(s: string) {
    forall i :: 0 <= i < |s| ==> IsDigit(s[i])
  }

  function DigitValue(c: char): (d: nat)
    requires IsDigit(c)
    ensures d < 10
  {
    (c as int - '0' as int) as nat
  }

  function DigitChar(d: nat): (c: char)
    requires d < 10
    ensures IsDigit(c) && DigitValue(c) == d
  {
    (d + '0' as int) as char
  }

  function Pow10(n: nat): (p: nat)
    ensures p >= 1
  {
    if n == 0 then 1 else 10 * Pow10(n - 1)
  }

  /** The number a digit string denotes, most significant digit first. */
  function ValueOf(s: string): nat
    requires AllDigits(s)
  {
    if s == [] then 0 else 10 * ValueOf(s[..|s| - 1]) + DigitValue(s[|s| - 1])
  }

  /** `n` written with exactly `w` digits, zero-padded on the left. */
  function FixedWidth(n: nat, w: nat): (s: string)
    ensures |s| == w && AllDigits(s)
  {
    if w == 0 then [] else FixedWidth(n / 10, w - 1) + [DigitChar(n % 10)]
  }

  lemma {:induction false} ValueOfBound(s: string)
    requires AllDigits(s)
    ensures ValueOf(s) < Pow10(|s|)
  {
    if s != [] {
      ValueOfBound(s[..|s| - 1]);
    }
  }

  lemma {:induction false} Pow10Add(a: nat, b: nat)
    ensures Pow10(a) * Pow10(b) == Pow10(a + b)
  {
    if a > 0 {
      Pow10Add(a - 1, b);
    }
  }

  /** The leading digit of a digit string carries the weight of all the digits after it. */
  lemma {:induction false} LeadingDigit(s: string)
    requires AllDigits(s) && |s| >= 1
    ensures ValueOf(s) == DigitValue(s[0]) * Pow10(|s| - 1) + ValueOf(s[1..])
  {
    if |s| > 1 {
      var init := s[..|s| - 1];
      LeadingDigit(init);
      assert init[1..] == s[1..][..|s| - 2];
      assert init[0] == s[0];
      var d0 := DigitValue(s[0]);
      var last := DigitValue(s[|s| - 1]);
      assert ValueOf(s) == 10 * ValueOf(init) + last;
      assert ValueOf(s[1..]) == 10 * ValueOf(init[1..]) + last;
      assert 10 * (d0 * Pow10(|s| - 2)) == d0 * Pow10(|s| - 1);
    } else {
      assert s[1..] == [] && s[..0] == [];
    }
  }

  /** Splitting a product `(d * q + r) * p` whose low part stays below `q * p`. */
  lemma PaddedSplit(d: nat, q: nat, r: nat, p: nat)
    requires r < q
    ensures (d * q + r) * p == d * (q * p) + r * p
    ensures r * p <= q * p - p
  {
    assert (d * q + r) * p == d * q * p + r * p;
    assert (r + 1) * p <= q * p;
  }

  lemma DivideOut(d: nat, x: nat)
    requires x < 100000
    ensures (d * 100000 + x) / 100000 == d
  {
  }

  /** The value of `s` right-padded with zeros to `w` digits: `"001"` to six digits is 1000. */
  function PaddedValue(s: string, w: nat): nat
    requires AllDigits(s) && |s| <= w
  {
    ValueOf(s) * Pow10(w - |s|)
  }

  /**
   * A run of one to six digits, right-padded to six, keeps its leading
   * digit as the hundred-thousands digit.
   */
  lemma PaddedLeadingDigit(s: string)
    requires AllDigits(s) && 1 <= |s| <= 6
    ensures DigitValue(s[0]) == PaddedValue(s, 6) / 100000
  {
    var n := |s|;
    var p := Pow10(6 - n);
    var q := Pow10(n - 1);
    var d0 := DigitValue(s[0]);
    var rest := ValueOf(s[1..]);
    LeadingDigit(s);
    ValueOfBound(s[1..]);
    Pow10Add(n - 1, 6 - n);
    assert Pow10(5) == 100000;
    assert q * p == 100000;
    PaddedSplit(d0, q, rest, p);
    assert ValueOf(s) == d0 * q + rest;
    var m := ValueOf(s) * p;
    assert m == d0 * 100000 + rest * p;
    assert 0 <= rest * p < 100000;
    DivideOut(d0, rest * p);
    assert d0 == m / 100000;
  }

  /** Writing a number in `w` digits and reading it back gives the number. */
  lemma {:induction false} ValueOfFixedWidth(n: nat, w: nat)
    requires n < Pow10(w)
    ensures ValueOf(FixedWidth(n, w)) == n
  {
    if w > 0 {
      var s := FixedWidth(n, w);
      assert s[..|s| - 1] == FixedWidth(n / 10, w - 1);
      ValueOfFixedWidth(n / 10, w - 1);
    }
  }

  /** Reading a digit string and writing it back in as many digits gives the string. */
  lemma {:induction false} FixedWidthValueOf(s: string)
    requires AllDigits(s)
    ensures FixedWidth(ValueOf(s), |s|) == s
  {
    if s != [] {
      var init := s[..|s| - 1];
      FixedWidthValueOf(init);
      var n := ValueOf(s);
      assert n / 10 == ValueOf(init) && n % 10 == DigitValue(s[|s| - 1]);
      assert s == init + [s[|s| - 1]];
    }
  }

  /** The shortest decimal text of a natural number. */
  function DecimalText(n: nat): (s: string)
    ensures |s| >= 1 && AllDigits(s)
  {
    if n < 10 then [DigitChar(n)] else DecimalText(n / 10) + [DigitChar(n % 10)]
  }

  lemma {:induction false} ValueOfDecimalText(n: nat)
    ensures ValueOf(DecimalText(n)) == n
  {
    if n >= 10 {
      var s := DecimalText(n);
      assert s[..|s| - 1] == DecimalText(n / 10);
      ValueOfDecimalText(n / 10);
    } else {
      assert DecimalText(n)[..0] == [];
    }
  }

  /** The text of an integer, with a minus sign when it is negative. */
  function IntText(n: int): string {
    if n < 0 then "-" + DecimalText(-n) else DecimalText(n)
  }

  /**
   * Python's `int(text)` on a string, restricted to an optional sign
   * followed by one or more ASCII digits; `None` where Python raises
   * `ValueError`.
   */
  function ParseInt(s: string): (r: Option<int>)
    ensures r.Some? ==> |s| >= 1
    ensures r.Some? && r.value < 0 ==> s[0] == '-'
    ensures AllDigits(s) && |s| >= 1 ==> r == Some(ValueOf(s))
    ensures s == [] || (!IsDigit(s[0]) && s[0] != '-' && s[0] != '+') ==> r == None
  {
    if |s| >= 2 && s[0] == '-' && AllDigits(s[1..]) then Some(-(ValueOf(s[1..]) as int))
    else if |s| >= 2 && s[0] == '+' && AllDigits(s[1..]) then Some(ValueOf(s[1..]))
    else if |s| >= 1 && AllDigits(s) then Some(ValueOf(s))
    else None
  }

  /** Every integer's text parses back to that integer. */
  lemma ParseIntText(n: int)
    ensures ParseInt(IntText(n)) == Some(n)
  {
    if n < 0 {
      var s := IntText(n);
      assert s[1..] == DecimalText(-n);
      ValueOfDecimalText(-n);
    } else {
      ValueOfDecimalText(n);
    }
  }

  /** A text holding anything but an optional sign and digits is refused. */
  lemma ParseIntRefuses(s: string, i: nat)
    requires 0 < i < |s| && !IsDigit(s[i])
    ensures ParseInt(s) == None
  {
    assert s[1..][i - 1] == s[i];
  }
}
