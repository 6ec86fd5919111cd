/** Decimal text, as `u128` reads it. */
module Decimal {
  import opened Wrappers
  import opened Numbers

  /** Decimal digits, most significant first. */
  function DigitsValue(text: string): Option<nat> {
    if text == "" then Some(0)
    else
      var last := text[|text| - 1];
      match DigitsValue(text[..|text| - 1])
      case Some(high) => if '0' <= last <= '9' then Some(10 * high + (last as nat - '0' as nat)) else None
      case None => None
  }

  /** `str::parse::<u128>`: an optional plus sign, at least one digit, no overflow. */
  function ParseU128(text: string): Option<U128> {
    var digits := if text != "" && text[0] == '+' then text[1..] else text;
    if digits == "" then None
    else
      match DigitsValue(digits)
      case Some(v) => if v < TWO_128 then Some(v) else None
      case None => None
  }

  /* What the text denotes */

  function Digit(d: nat): (c: char)
    requires d < 10
    ensures '0' <= c <= '9'
  {
    "0123456789"[d]
  }

  /** The decimal numeral of a number, without leading zeros. */
  function Numeral(n: nat): (text: string)
    ensures text != ""
  {
    if n < 10 then [Digit(n)] else Numeral(n / 10) + [Digit(n % 10)]
  }

  function Zeros(k: nat): string {
    if k == 0 then "" else Zeros(k - 1) + "0"
  }

  /** The numeral of a number, possibly behind zeros. */
  ghost predicate Writes(digits: string, n: nat) {
    exists k: nat :: digits == Zeros(k) + Numeral(n)
  }

  /** The text denotes the number: an optional plus sign, any zeros, the numeral. */
  ghost predicate Denotes(text: string, n: nat) {
    Writes(text, n) || (text != "" && text[0] == '+' && Writes(text[1..], n))
  }

  lemma DigitOf(d: nat)
    requires d < 10
    ensures Digit(d) as nat - '0' as nat == d
  {
  }

  lemma DigitsAppend(digits: string, d: nat)
    requires d < 10 && DigitsValue(digits).Some?
    ensures DigitsValue(digits + [Digit(d)]) == Some(10 * DigitsValue(digits).value + d)
  {
    assert (digits + [Digit(d)])[..|digits|] == digits;
    DigitOf(d);
  }

  lemma {:induction false} ZerosAreZero(k: nat)
    ensures DigitsValue(Zeros(k)) == Some(0)
  {
    if k > 0 {
      ZerosAreZero(k - 1);
      DigitsAppend(Zeros(k - 1), 0);
    }
  }

  /** Reading undoes writing. */
  lemma {:induction false} DigitsOfNumeral(k: nat, n: nat)
    ensures DigitsValue(Zeros(k) + Numeral(n)) == Some(n)
  {
    if n < 10 {
      ZerosAreZero(k);
      DigitsAppend(Zeros(k), n);
    } else {
      DigitsOfNumeral(k, n / 10);
      DigitsAppend(Zeros(k) + Numeral(n / 10), n % 10);
      assert Zeros(k) + Numeral(n / 10) + [Digit(n % 10)] == Zeros(k) + Numeral(n);
    }
  }

  lemma NextDigit(digits: string, m: nat, d: nat)
    requires Writes(digits, m) && d < 10
    ensures Writes(digits + [Digit(d)], 10 * m + d)
  {
    var k: nat :| digits == Zeros(k) + Numeral(m);
    if m == 0 {
      assert digits + [Digit(d)] == Zeros(k + 1) + Numeral(d);
    } else {
      assert (10 * m + d) / 10 == m && (10 * m + d) % 10 == d;
      assert digits + [Digit(d)] == Zeros(k) + Numeral(10 * m + d);
    }
  }

  lemma LastDigit(c: char) returns (d: nat)
    requires '0' <= c <= '9'
    ensures d < 10 && Digit(d) == c && d == c as nat - '0' as nat
  {
    d := c as nat - '0' as nat;
    DigitOf(d);
  }

  lemma {:induction false} ReadDigitsAreWritten(digits: string)
    requires digits != "" && DigitsValue(digits).Some?
    ensures Writes(digits, DigitsValue(digits).value)
  {
    var front, last := digits[..|digits| - 1], digits[|digits| - 1];
    var d := LastDigit(last);
    assert digits == front + [Digit(d)];
    if front == "" {
      assert digits == Zeros(0) + Numeral(d);
    } else {
      ReadDigitsAreWritten(front);
      NextDigit(front, DigitsValue(front).value, d);
    }
  }

  /** Digits are read as a number exactly when they write it. */
  lemma DigitsExactlyWhen(digits: string, n: nat)
    requires digits != ""
    ensures DigitsValue(digits) == Some(n) <==> Writes(digits, n)
  {
    if DigitsValue(digits) == Some(n) {
      ReadDigitsAreWritten(digits);
    }
    if k: nat :| digits == Zeros(k) + Numeral(n) {
      DigitsOfNumeral(k, n);
    }
  }

  lemma WrittenHasDigits(digits: string, n: nat)
    requires Writes(digits, n)
    ensures digits != "" && digits[0] != '+'
  {
    var k: nat :| digits == Zeros(k) + Numeral(n);
    DigitsOfNumeral(k, n);
    if digits[0] == '+' {
      NoSign(digits);
      assert false;
    }
  }

  lemma {:induction false} NoSign(text: string)
    requires text != "" && text[0] == '+'
    ensures DigitsValue(text) == None
  {
    if |text| > 1 {
      NoSign(text[..|text| - 1]);
    }
  }

  /** A text is read as a number exactly when it denotes it and the number fits 128 bits. */
  lemma ParseExactlyWhen(text: string, n: U128)
    ensures ParseU128(text) == Some(n) <==> Denotes(text, n)
  {
    if Writes(text, n) {
      WrittenHasDigits(text, n);
    }
    if text != "" && text[0] == '+' {
      if Writes(text[1..], n) {
        WrittenHasDigits(text[1..], n);
      }
      if text[1..] != "" {
        DigitsExactlyWhen(text[1..], n);
      }
    } else if text != "" {
      DigitsExactlyWhen(text, n);
    }
  }

  /** Every number is denoted by its numeral. */
  lemma NumeralDenotes(n: nat)
    ensures Denotes(Numeral(n), n)
  {
    assert Numeral(n) == Zeros(0) + Numeral(n);
  }
}
