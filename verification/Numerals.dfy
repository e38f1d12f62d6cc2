/** Printing and reading natural numbers in base 10 or 16. */
module Numerals {
  import opened Prelude

  type Base = base: nat | base == 10 || base == 16 witness 10

  const DIGITS := "0123456789abcdef"

  function DigitValue(c: char): (value: Option<nat>)
    ensures value.Some? ==> value.value < 16
  {
    if '0' <= c <= '9' then Some(c as int - '0' as int)
    else if 'a' <= c <= 'f' then Some(c as int - 'a' as int + 10)
    else if 'A' <= c <= 'F' then Some(c as int - 'A' as int + 10)
    else None
  }

  predicate IsDigit(c: char, base: Base) {
    DigitValue(c).Some? && DigitValue(c).value < base
  }

  predicate AllDigits(text: string, base: Base) {
    forall c :: c in text ==> IsDigit(c, base)
  }

  function Print(n: nat, base: Base): (text: string)
    ensures text != [] && forall c :: c in text ==> c in DIGITS[..base]
    decreases n
  {
    if n < base then [DIGITS[n]] else Print(n / base, base) + [DIGITS[n % base]]
  }

  function Value(text: string, base: Base): nat
    requires AllDigits(text, base)
  {
    if text == [] then 0
    else
      assert text[|text| - 1] in text;
      Value(text[..|text| - 1], base) * base + DigitValue(text[|text| - 1]).value
  }

  /** int(text, base) for texts without sign, blanks or separators. */
  function Parse(text: string, base: Base): Option<nat> {
    if text != [] && AllDigits(text, base) then Some(Value(text, base)) else None
  }

  lemma DigitRoundTrip(d: nat, base: Base)
    requires d < base
    ensures IsDigit(DIGITS[d], base) && DigitValue(DIGITS[d]) == Some(d)
  {
  }

  lemma QuotientRemainder(n: nat, base: Base)
    ensures n / base * base + n % base == n
  {
    if base == 10 { assert n / 10 * 10 + n % 10 == n; } else { assert n / 16 * 16 + n % 16 == n; }
  }

  lemma {:induction false} ValueOfSnoc(text: string, c: char, base: Base)
    requires AllDigits(text, base) && IsDigit(c, base)
    ensures AllDigits(text + [c], base)
    ensures Value(text + [c], base) == Value(text, base) * base + DigitValue(c).value
  {
    assert (text + [c])[..|text|] == text;
  }

  lemma PrintStep(n: nat, base: Base)
    ensures n < base ==> Print(n, base) == [DIGITS[n]]
    ensures n >= base ==> Print(n, base) == Print(n / base, base) + [DIGITS[n % base]]
  {
  }

  lemma {:induction false} PrintParse(n: nat, base: Base)
    ensures AllDigits(Print(n, base), base) && Value(Print(n, base), base) == n
    ensures Parse(Print(n, base), base) == Some(n)
    decreases n
  {
    PrintStep(n, base);
    if n < base {
      DigitRoundTrip(n, base);
      ValueOfSnoc([], DIGITS[n], base);
      assert [] + [DIGITS[n]] == [DIGITS[n]];
    } else {
      var q, r := n / base, n % base;
      DigitRoundTrip(r, base);
      QuotientRemainder(n, base);
      PrintParse(q, base);
      ValueOfSnoc(Print(q, base), DIGITS[r], base);
    }
  }

  lemma QuotientPositive(n: nat, base: Base)
    requires n >= base
    ensures 0 < n / base < n
  {
    if base == 10 { assert 0 < n / 10 < n; } else { assert 0 < n / 16 < n; }
  }

  /** A printed number starts with a zero only when it is zero. */
  lemma {:induction false} NoLeadingZero(n: nat, base: Base)
    ensures Print(n, base)[0] == '0' <==> n == 0
    decreases n
  {
    PrintStep(n, base);
    if n >= base {
      QuotientPositive(n, base);
      NoLeadingZero(n / base, base);
      assert Print(n, base)[0] == Print(n / base, base)[0];
    }
  }

  lemma PrintInjective(m: nat, n: nat, base: Base)
    requires Print(m, base) == Print(n, base)
    ensures m == n
  {
    PrintParse(m, base);
    PrintParse(n, base);
  }

  /** Numbers below 10000 print in at most four digits. */
  lemma PrintShort(n: nat)
    requires n < 10000
    ensures |Print(n, 10)| <= 4
  {
    var tens, hundreds, thousands := n / 10, n / 10 / 10, n / 10 / 10 / 10;
    assert thousands < 10;
    assert |Print(thousands, 10)| == 1;
    assert |Print(hundreds, 10)| <= 2;
    assert |Print(tens, 10)| <= 3;
  }
}
