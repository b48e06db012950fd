/** Decimal digits: the `[0-9]` class of the delimiter pattern and the
    rendering of `msg.length` inside the frame template string. */
module Decimal {

  predicate IsDigit(c: char) {
    '0' <= c <= '9'
  }

  predicate AllDigits(s: string) {
    forall i | 0 <= i < |s| :: IsDigit(s[i])
  }

  /** A canonical numeral: non-empty, all digits, no leading zero unless it is "0". */
  predicate Canonical(ds: string) {
    ds != [] && AllDigits(ds) && (ds[0] == '0' ==> |ds| == 1)
  }

  function DigitChar(d: nat): (c: char)
    requires d < 10
    ensures IsDigit(c) && c as int - '0' as int == d
  {
    ('0' as int + d) as char
  }

  function DigitValue(c: char): (d: nat)
    requires IsDigit(c)
    ensures d < 10 && DigitChar(d) == c
  {
    c as int - '0' as int
  }

  /** The number a string of digits denotes, most significant digit first. */
  function Value(ds: string): nat
    requires AllDigits(ds)
  {
    if ds == [] then 0 else 10 * Value(ds[..|ds| - 1]) + DigitValue(ds[|ds| - 1])
  }

  /** JavaScript's `${n}` for a non-negative integer. */
  function Render(n: nat): (ds: string)
    ensures Canonical(ds)
    ensures Value(ds) == n
  {
    if n < 10 then [DigitChar(n)]
    else
      var init := Render(n / 10);
      var ds := init + [DigitChar(n % 10)];
      assert ds[..|ds| - 1] == init;
      ds
  }

  /** A canonical numeral with a leading digit other than '0' is positive. */
  lemma {:induction false} ValuePositive(ds: string)
    requires ds != [] && AllDigits(ds) && ds[0] != '0'
    ensures Value(ds) > 0
  {
    if |ds| > 1 {
      var init := ds[..|ds| - 1];
      assert init[0] == ds[0];
      ValuePositive(init);
    }
  }

  /** Rendering is the inverse of reading a canonical numeral back. */
  lemma {:induction false} RenderValue(ds: string)
    requires Canonical(ds)
    ensures Render(Value(ds)) == ds
  {
    if |ds| > 1 {
      var init := ds[..|ds| - 1];
      var d := DigitValue(ds[|ds| - 1]);
      assert init[0] == ds[0];
      ValuePositive(init);
      RenderValue(init);
      var n := Value(ds);
      assert n / 10 == Value(init) && n % 10 == d;
      assert ds == init + [ds[|ds| - 1]];
    }
  }
}
